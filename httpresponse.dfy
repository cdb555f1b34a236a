/**
 * HttpResponse: the status decision, the error pages, and the status line, headers and
 * content that makeResponse appends to the write buffer.  The file system (stat, open,
 * mmap) is an input value.
 */
module Response {
  import opened Wrappers
  import opened Decimal
  import opened ByteBuffer

  /** What stat reports about a path: S_ISDIR, the S_IROTH bit and st_size. */
  datatype FileStat = FileStat(isDir: bool, othersRead: bool, size: nat)

  /** mmFileStat_ = { 0 }. */
  const ZERO_STAT: FileStat := FileStat(false, false, 0)

  /**
   * The file system as the response sees it: the stat record of every path that exists,
   * the paths open(O_RDONLY) succeeds on, and the opened files mmap is able to map.
   * A mapping of length 0 fails whatever the file (mmap reports EINVAL on Linux).
   */
  datatype Files = Files(stat: map<string, FileStat>, openable: set<string>, mappable: set<string>)

  const SUFFIX_TYPE: map<string, string> := map[
    ".html" := "text/html",
    ".xml" := "text/xml",
    ".xhtml" := "application/xhtml+xml",
    ".txt" := "text/plain",
    ".rtf" := "application/rtf",
    ".pdf" := "application/pdf",
    ".word" := "application/nsword",
    ".png" := "image/png",
    ".gif" := "image/gif",
    ".jpg" := "image/jpeg",
    ".jpeg" := "image/jpeg",
    ".au" := "audio/basic",
    ".mpeg" := "video/mpeg",
    ".mpg" := "video/mpeg",
    ".avi" := "video/x-msvideo",
    ".gz" := "application/x-gzip",
    ".tar" := "application/x-tar",
    ".css" := "text/css ",
    ".js" := "text/javascript "
  ]

  const CODE_STATUS: map<int, string> := map[200 := "OK", 400 := "Bad Request", 403 := "Forbidden", 404 := "Not Found"]

  const CODE_PATH: map<int, string> := map[400 := "/400.html", 403 := "/403.html", 404 := "/404.html"]

  const KEEP_ALIVE_HEADERS: string := "keep-alive\r\n" + "keep-alive: max=6, timeout=120\r\n"

  /**
   * The fields of an HttpResponse.  mmFile stands for the mmFile_ pointer: the full path
   * of the file whose mapping it holds, or None for nullptr.
   */
  datatype Resp = Resp(code: int, keepAlive: bool, path: string, srcDir: string, mmFile: Option<string>, mmStat: FileStat)

  /** The stat record a successful stat(p) stores; a failed stat leaves the old one. */
  function StatOr(fs: Files, p: string, prev: FileStat): FileStat {
    if p in fs.stat then fs.stat[p] else prev
  }

  /** The first lines of makeResponse: stat the requested file and decide the code. */
  function Decide(r: Resp, fs: Files): Resp {
    var p := r.srcDir + r.path;
    var st := StatOr(fs, p, r.mmStat);
    if p !in fs.stat || fs.stat[p].isDir then r.(code := 404, mmStat := st)
    else if !fs.stat[p].othersRead then r.(code := 403, mmStat := st)
    else if r.code == -1 then r.(code := 200, mmStat := st)
    else r.(mmStat := st)
  }

  /** errorHtml_: an error code switches to its error page, which is stat'ed in turn. */
  function ErrorPage(r: Resp, fs: Files): Resp {
    if r.code in CODE_PATH then
      var q := CODE_PATH[r.code];
      r.(path := q, mmStat := StatOr(fs, r.srcDir + q, r.mmStat))
    else r
  }

  /** The status line addStateLine_ writes for a code it knows. */
  function StatusLine(c: int): string
    requires c in CODE_STATUS
  {
    "HTTP/1.1 " + (IntToString(c) + (" " + CODE_STATUS[c] + "\r\n"))
  }

  /** find_last_of: the index of the last occurrence of c in s. */
  function LastIndexOf(s: string, c: char): (r: Option<nat>)
    ensures r.Some? ==> r.value < |s| && s[r.value] == c && forall j :: r.value < j < |s| ==> s[j] != c
    ensures r.None? ==> forall j :: 0 <= j < |s| ==> s[j] != c
  {
    if s == [] then None
    else if s[|s| - 1] == c then Some(|s| - 1)
    else LastIndexOf(s[..|s| - 1], c)
  }

  /** getFileType_: the type registered for the suffix from the last '.', else text/plain. */
  function FileType(path: string): string {
    match LastIndexOf(path, '.')
    case None => "text/plain"
    case Some(i) => if path[i..] in SUFFIX_TYPE then SUFFIX_TYPE[path[i..]] else "text/plain"
  }

  /** The Connection header(s) addHeader_ writes. */
  function ConnectionText(keepAlive: bool): string {
    "Connection: " + (if keepAlive then KEEP_ALIVE_HEADERS else "close\r\n")
  }

  /** The Content-type header addHeader_ writes for a path. */
  function ContentTypeText(path: string): string {
    "Content-type: " + FileType(path) + "\r\n"
  }

  /** The reason errorContent prints: the known one, else "Bad Request". */
  function ErrorStatus(code: int): string {
    if code in CODE_STATUS then CODE_STATUS[code] else "Bad Request"
  }

  /** The HTML page errorContent builds. */
  function ErrorBody(code: int, message: string): string {
    "<html><title>Error</title>" + "<body bgcolor=\"ffffff\">" +
    IntToString(code) + " : " + ErrorStatus(code) + "\n" +
    "<p>" + message + "</p>" + "<hr><em>TinyWebServer</em></body></html>"
  }

  /** A Content-length header followed by the blank line that ends the headers. */
  function LengthText(n: nat): string {
    "Content-length: " + (NatToString(n) + "\r\n\r\n")
  }

  /** What errorContent appends: the length line, a blank line, then the page. */
  function ErrorContentText(code: int, message: string): string {
    LengthText(|ErrorBody(code, message)|) + ErrorBody(code, message)
  }

  /** The two messages addContent_ uses: open failed, mmap failed. */
  const OPEN_FAILED: string := "File NotFound!"
  const MAP_FAILED: string := "File NotFound"

  /** Whether addContent_ maps the file: it opens, maps, and the recorded size is not 0. */
  predicate Maps(r: Resp, fs: Files) {
    var p := r.srcDir + r.path;
    p in fs.openable && p in fs.mappable && r.mmStat.size != 0
  }

  /** addContent_'s effect on the fields: a mapped file is recorded, otherwise nothing changes. */
  function ContentState(r: Resp, fs: Files): Resp {
    if Maps(r, fs) then r.(mmFile := Some(r.srcDir + r.path)) else r
  }

  /**
   * What addContent_ appends: the file's length when it maps it, otherwise the error page,
   * "File NotFound!" when open fails and "File NotFound" when mmap fails.
   */
  function ContentText(r: Resp, fs: Files): string {
    var p := r.srcDir + r.path;
    if p !in fs.openable then ErrorContentText(r.code, OPEN_FAILED)
    else if p !in fs.mappable || r.mmStat.size == 0 then ErrorContentText(r.code, MAP_FAILED)
    else LengthText(r.mmStat.size)
  }

  /** The code addStateLine_ keeps: a code without a reason phrase becomes 400. */
  function KnownCode(c: int): int {
    if c in CODE_STATUS then c else 400
  }

  /** A code addStateLine_ keeps is kept again. */
  lemma KnownCodeKnown(c: int)
    ensures KnownCode(KnownCode(c)) == KnownCode(c)
  {
  }

  /** The fields once the status line is written: decided, error page chosen, code known. */
  function Headed(r: Resp, fs: Files): Resp {
    var r1 := ErrorPage(Decide(r, fs), fs);
    r1.(code := KnownCode(r1.code))
  }

  /**
   * makeResponse's decision as evidently intended: an error code the caller passed to init()
   * (process() passes 400 for BAD_REQUEST) stands, and only a response still to be decided is
   * stat'ed for 404 and 403.
   */
  function DecideIntended(r: Resp, fs: Files): Resp {
    if r.code in CODE_PATH then r else Decide(r, fs)
  }

  /** The fields once the status line is written, with the intended decision. */
  function HeadedIntended(r: Resp, fs: Files): Resp {
    var r1 := ErrorPage(DecideIntended(r, fs), fs);
    r1.(code := KnownCode(r1.code))
  }

  /**
   * With the intended decision an error code passed in is the code answered, with its own
   * error page, whatever the requested path is; any other code is decided as the code does.
   */
  lemma IntendedKeepsErrorCode(r: Resp, fs: Files)
    ensures r.code in CODE_PATH ==> HeadedIntended(r, fs).code == r.code && HeadedIntended(r, fs).path == CODE_PATH[r.code]
    ensures r.code !in CODE_PATH ==> HeadedIntended(r, fs) == Headed(r, fs)
  {
  }

  /** The fields after makeResponse. */
  function RespondState(r: Resp, fs: Files): Resp {
    ContentState(Headed(r, fs), fs)
  }

  /** The status line and the two header lines of a decided response. */
  function HeadText(h: Resp): string
    requires KnownCode(h.code) == h.code
  {
    StatusLine(h.code) + (ConnectionText(h.keepAlive) + ContentTypeText(h.path))
  }

  /** The bytes makeResponse appends: status line, headers, content. */
  function RespondText(r: Resp, fs: Files): string {
    var h := Headed(r, fs);
    HeadText(h) + ContentText(h, fs)
  }

  /** Cut a concatenation back into its parts. */
  lemma AppendParts<T>(a: seq<T>, b: seq<T>)
    ensures (a + b)[..|a|] == a && (a + b)[|a|..] == b
  {
  }

  /** A concatenation ends with its second part. */
  lemma AppendEnds<T>(a: seq<T>, b: seq<T>)
    ensures |b| <= |a + b| && (a + b)[|a + b| - |b|..] == b
  {
    AppendParts(a, b);
  }

  /** Concatenation regrouped to the right. */
  lemma AppendRegroup<T>(a: seq<T>, b: seq<T>, c: seq<T>)
    ensures (a + b) + c == a + (b + c)
  {
  }

  /** The three leading parts of a right-nested concatenation, read back by position. */
  lemma NestedParts<T>(a: seq<T>, b: seq<T>, c: seq<T>, d: seq<T>)
    ensures var t := a + (b + (c + d)); var i := |a|; var j := |a| + |b|; var k := |a| + |b| + |c|;
      && k <= |t| && t[..i] == a && t[i..j] == b && t[j..k] == c && t[k..] == d
  {
    var t := a + (b + (c + d));
    assert t == ((a + b) + c) + d;
    assert t[..|a| + |b| + |c|] == (a + b) + c;
    assert ((a + b) + c)[..|a| + |b|] == a + b;
  }

  /**
   * The status decision: a missing path or a directory is 404, a file others cannot read
   * is 403, otherwise -1 becomes 200 and any other code is kept; a code without a reason
   * phrase ends as 400.  Codes 400, 403 and 404 serve their error page; others keep the path.
   */
  lemma ResponseStatus(r: Resp, fs: Files)
    ensures var p := r.srcDir + r.path; var d := Decide(r, fs).code; var f := RespondState(r, fs);
      && ((p !in fs.stat || fs.stat[p].isDir) ==> d == 404)
      && (p in fs.stat && !fs.stat[p].isDir && !fs.stat[p].othersRead ==> d == 403)
      && (p in fs.stat && !fs.stat[p].isDir && fs.stat[p].othersRead ==> d == (if r.code == -1 then 200 else r.code))
      && f.code == KnownCode(d) && f.code in CODE_STATUS
      && f.path == (if d in CODE_PATH then CODE_PATH[d] else r.path)
      && f.keepAlive == r.keepAlive && f.srcDir == r.srcDir
      && f.mmStat == (if d in CODE_PATH then StatOr(fs, r.srcDir + CODE_PATH[d], StatOr(fs, p, r.mmStat))
                      else StatOr(fs, p, r.mmStat))
  {
  }

  /** What to_string prints is read back by a digit scan that stops at the next byte. */
  lemma NumberReadsBack(n: nat, rest: string)
    requires rest == [] || !IsDigit(rest[0])
    ensures LeadingDigits(NatToString(n) + rest) == NatToString(n)
    ensures DigitsValue(LeadingDigits(NatToString(n) + rest)) == n
  {
    LeadingDigitsAppend(NatToString(n), rest);
    NatToStringValue(n);
  }

  /** A status line, whatever follows it, starts with "HTTP/1.1 " and then reads back as its code. */
  lemma StatusLineReadsBack(c: int, rest: string)
    requires c in CODE_STATUS
    ensures var t := StatusLine(c) + rest;
      |t| > 9 && t[..9] == "HTTP/1.1 " && Stoi(t[9..]) == Success(c)
  {
    var n := IntToString(c);
    var tail := " " + CODE_STATUS[c] + "\r\n";
    AppendRegroup("HTTP/1.1 ", n + tail, rest);
    AppendRegroup(n, tail, rest);
    AppendParts("HTTP/1.1 ", n + (tail + rest));
    StoiStopsAtNonDigit(c, tail + rest);
  }

  /** The response starts with "HTTP/1.1 " and the number after it is the final code. */
  lemma ResponseStatusLine(r: Resp, fs: Files)
    ensures var t := RespondText(r, fs);
      && |t| > 9 && t[..9] == "HTTP/1.1 "
      && Stoi(t[9..]) == Success(RespondState(r, fs).code)
  {
    var h := Headed(r, fs);
    var rest := ContentText(h, fs);
    KnownCodeKnown(ErrorPage(Decide(r, fs), fs).code);
    HeadReadsBack(h, rest);
    assert RespondText(r, fs) == HeadText(h) + rest;
    assert RespondState(r, fs).code == h.code;
  }

  /** A decided head, whatever follows it, starts with "HTTP/1.1 " and reads back its code. */
  lemma HeadReadsBack(h: Resp, rest: string)
    requires KnownCode(h.code) == h.code
    ensures var t := HeadText(h) + rest; |t| > 9 && t[..9] == "HTTP/1.1 " && Stoi(t[9..]) == Success(h.code)
  {
    var tail := ConnectionText(h.keepAlive) + ContentTypeText(h.path);
    AppendRegroup(StatusLine(h.code), tail, rest);
    StatusLineReadsBack(h.code, tail + rest);
  }

  /** A Content-length line, whatever follows it, reads back as its number. */
  lemma LengthReadsBack(n: nat, rest: string)
    ensures var t := LengthText(n) + rest; var k := |LengthText(n)|;
      && t[..16] == "Content-length: " && DigitsValue(LeadingDigits(t[16..])) == n
      && t[k - 4..k] == "\r\n\r\n" && t[k..] == rest
  {
    var d := NatToString(n);
    AppendRegroup("Content-length: ", d + "\r\n\r\n", rest);
    AppendRegroup(d, "\r\n\r\n", rest);
    AppendParts("Content-length: ", d + ("\r\n\r\n" + rest));
    AppendParts(d, "\r\n\r\n" + rest);
    AppendParts(LengthText(n), rest);
    NumberReadsBack(n, "\r\n\r\n" + rest);
  }

  /**
   * errorContent: the Content-length it announces, read back, is the length of the page
   * that follows the blank line, and the page is the last thing it writes.
   */
  lemma ErrorContentReadsBack(code: int, message: string)
    ensures var t := ErrorContentText(code, message); var b := ErrorBody(code, message);
      && |t| >= 16 + |b| + 4 && t[..16] == "Content-length: "
      && DigitsValue(LeadingDigits(t[16..])) == |b|
      && t[|t| - |b| - 4..|t| - |b|] == "\r\n\r\n" && t[|t| - |b|..] == b
  {
    LengthPrefixed(ErrorBody(code, message));
  }

  /** Any text announced by its own length reads back that length and ends with the text. */
  lemma LengthPrefixed(b: string)
    ensures var t := LengthText(|b|) + b;
      && |t| >= 16 + |b| + 4 && t[..16] == "Content-length: "
      && DigitsValue(LeadingDigits(t[16..])) == |b|
      && t[|t| - |b| - 4..|t| - |b|] == "\r\n\r\n" && t[|t| - |b|..] == b
  {
    LengthReadsBack(|b|, b);
    assert |LengthText(|b|) + b| - |b| == |LengthText(|b|)|;
  }

  /**
   * addContent_ from a state without a mapping: it maps the file exactly when the file
   * opens, maps and is not empty, and then announces the file's length; otherwise it
   * appends the error page, naming the step that failed.
   */
  lemma ContentOutcome(h: Resp, fs: Files)
    requires h.mmFile.None?
    ensures var f := ContentState(h, fs); var p := h.srcDir + h.path;
      && f.code == h.code && f.path == h.path && f.srcDir == h.srcDir && f.mmStat == h.mmStat
      && (f.mmFile.Some? <==> p in fs.openable && p in fs.mappable && h.mmStat.size > 0)
      && (f.mmFile.Some? ==> f.mmFile == Some(p) && ContentText(h, fs) == LengthText(h.mmStat.size))
      && (f.mmFile.None? ==>
            ContentText(h, fs) == ErrorContentText(h.code, if p in fs.openable then MAP_FAILED else OPEN_FAILED))
  {
  }

  /**
   * Whether a response maps its file: starting from no mapping, as after init, the file
   * of the final path is mapped exactly when it opens, maps and is not empty.
   */
  lemma ResponseMapsFile(r: Resp, fs: Files)
    requires r.mmFile.None?
    ensures var f := RespondState(r, fs); var p := f.srcDir + f.path;
      && (f.mmFile.Some? <==> p in fs.openable && p in fs.mappable && f.mmStat.size > 0)
      && (f.mmFile.Some? ==> f.mmFile == Some(p))
  {
    ContentOutcome(Headed(r, fs), fs);
  }

  /**
   * A mapped file is announced with its length, which is the length HttpConn sends from
   * the mapping: the response ends with that Content-length line and the blank line.
   */
  lemma ResponseAnnouncesFile(r: Resp, fs: Files)
    requires r.mmFile.None? && RespondState(r, fs).mmFile.Some?
    ensures var f := RespondState(r, fs); var t := RespondText(r, fs); var l := LengthText(f.mmStat.size);
      |l| <= |t| && t[|t| - |l|..] == l
  {
    var h := Headed(r, fs);
    ContentOutcome(h, fs);
    AppendEnds(HeadText(h), ContentText(h, fs));
  }

  /**
   * A response that maps nothing ends with the error page for its final code, naming
   * the step that failed: opening the file, or mapping it.
   */
  lemma ResponseEndsWithErrorPage(r: Resp, fs: Files)
    requires r.mmFile.None? && RespondState(r, fs).mmFile.None?
    ensures var f := RespondState(r, fs); var t := RespondText(r, fs); var p := f.srcDir + f.path;
      var e := ErrorContentText(f.code, if p in fs.openable then MAP_FAILED else OPEN_FAILED);
      |e| <= |t| && t[|t| - |e|..] == e
  {
    var h := Headed(r, fs);
    ContentOutcome(h, fs);
    AppendEnds(HeadText(h), ContentText(h, fs));
  }

  /**
   * The head of a decided response, whatever follows it: the status line, then
   * "Connection: keep-alive" with the keep-alive parameters exactly when the response is
   * keep-alive and "Connection: close" otherwise, then the Content-type of the path.
   */
  lemma HeadParts(h: Resp, rest: string)
    requires KnownCode(h.code) == h.code
    ensures var t := HeadText(h) + rest; var a := StatusLine(h.code); var b := ConnectionText(h.keepAlive);
      var c := ContentTypeText(h.path); var i := |a|; var j := |a| + |b|; var k := |a| + |b| + |c|;
      && k <= |t| && t[..i] == a && t[i..j] == b && t[j..k] == c
      && b == "Connection: " + (if h.keepAlive then KEEP_ALIVE_HEADERS else "close\r\n")
  {
    var a := StatusLine(h.code);
    var b := ConnectionText(h.keepAlive);
    var c := ContentTypeText(h.path);
    AppendRegroup(a, b + c, rest);
    AppendRegroup(b, c, rest);
    NestedParts(a, b, c, rest);
  }

  /** Every registered suffix is a '.' followed by no other '.'. */
  lemma SuffixShape(ext: string)
    requires ext in SUFFIX_TYPE
    ensures |ext| > 0 && ext[0] == '.' && forall j :: 0 < j < |ext| ==> ext[j] != '.'
  {
  }

  /** A file name ending in a registered suffix gets that suffix's type. */
  lemma FileTypeOfSuffix(name: string, ext: string)
    requires ext in SUFFIX_TYPE
    ensures FileType(name + ext) == SUFFIX_TYPE[ext]
  {
    SuffixShape(ext);
    var s := name + ext;
    assert s[|name|] == '.';
    forall j | |name| < j < |s|
      ensures s[j] != '.'
    {
      assert s[j] == ext[j - |name|];
    }
    AppendParts(name, ext);
  }

  /** A path without a '.' is served as text/plain; every served type is registered or text/plain. */
  lemma FileTypeCases(path: string)
    ensures (forall j :: 0 <= j < |path| ==> path[j] != '.') ==> FileType(path) == "text/plain"
    ensures FileType(path) in SUFFIX_TYPE.Values || FileType(path) == "text/plain"
  {
    match LastIndexOf(path, '.')
    case None =>
    case Some(i) =>
      assert path[i] == '.';
      if path[i..] in SUFFIX_TYPE {
        assert SUFFIX_TYPE[path[i..]] in SUFFIX_TYPE.Values;
      }
  }

  /**
   * An empty world-readable file requested with code 200: the status line says 200, but
   * mmap of zero bytes fails, so the body is the "File NotFound" error page with code 200.
   */
  lemma EmptyFileAnswersWithErrorPage(r: Resp, fs: Files)
    requires r.code == 200 && r.mmFile.None?
    requires var p := r.srcDir + r.path;
      p in fs.stat && !fs.stat[p].isDir && fs.stat[p].othersRead && fs.stat[p].size == 0 && p in fs.openable
    ensures var f := RespondState(r, fs); var t := RespondText(r, fs);
      && f.code == 200 && f.mmFile.None?
      && var e := ErrorContentText(200, MAP_FAILED);
      |e| <= |t| && t[|t| - |e|..] == e
  {
    ResponseStatus(r, fs);
    var f := RespondState(r, fs);
    assert f.srcDir + f.path == r.srcDir + r.path;
    ResponseMapsFile(r, fs);
    ResponseEndsWithErrorPage(r, fs);
  }

  class HttpResponse {
    var code: int
    var isKeepAlive: bool
    var path: string
    var srcDir: string
    var mmFile: Option<string>
    var mmStat: FileStat

    /** The fields as one value. */
    function View(): Resp
      reads this
    {
      Resp(code, isKeepAlive, path, srcDir, mmFile, mmStat)
    }

    constructor ()
      ensures View() == Resp(-1, false, "", "", None, ZERO_STAT)
    {
      code, isKeepAlive, path, srcDir, mmFile, mmStat := -1, false, "", "", None, ZERO_STAT;
    }

    /** init: drop any mapping, then take the new request's parameters. */
    method Init(srcDir': string, path': string, keepAlive: bool, code': int)
      requires srcDir' != ""
      modifies this
      ensures View() == Resp(code', keepAlive, path', srcDir', None, ZERO_STAT)
    {
      if mmFile.Some? {
        UnmapFile();
      }
      code := code';
      isKeepAlive := keepAlive;
      path := path';
      srcDir := srcDir';
      mmFile := None;
      mmStat := ZERO_STAT;
    }

    /** unmapFile: release the mapping, if any. */
    method UnmapFile()
      modifies this
      ensures View() == old(View()).(mmFile := None)
    {
      if mmFile.Some? {
        mmFile := None;
      }
    }

    /** file(): the mapped file, None for nullptr. */
    function File(): Option<string>
      reads this
    {
      mmFile
    }

    /** fileLen(): st_size of the last successful stat. */
    function FileLen(): nat
      reads this
    {
      mmStat.size
    }

    /** getFileType_ of the current path. */
    function GetFileType(): string
      reads this
    {
      FileType(path)
    }

    /**
     * makeResponse: stat the file and decide the code, switch to the error page, then
     * append the status line, the headers and the content.
     */
    method MakeResponse(buff: Buffer, fs: Files)
      requires buff.Valid()
      modifies this, buff
      ensures buff.Valid() && View() == RespondState(old(View()), fs)
      ensures buff.Contents() == old(buff.Contents()) + RespondText(old(View()), fs)
    {
      DecideCode(fs);
      ghost var b0 := buff.Contents();
      ghost var h := Headed(old(View()), fs);
      ErrorHtml(fs);
      var line := AddStateLine(buff);
      assert View() == h;
      var conn, ct := AddHeader(buff);
      var content := AddContent(buff, fs);
      assert View() == ContentState(h, fs) && content == ContentText(h, fs);
      assert line + (conn + ct) == HeadText(h);
      AppendRegroup(b0 + line, conn, ct);
      AppendRegroup(b0, line, conn + ct);
      AppendRegroup(b0, HeadText(h), content);
    }

    /** The first step of makeResponse: stat the file and decide the code from it. */
    method DecideCode(fs: Files)
      modifies this
      ensures View() == Decide(old(View()), fs)
    {
      var p := srcDir + path;
      if p !in fs.stat || fs.stat[p].isDir {
        if p in fs.stat {
          mmStat := fs.stat[p];
        }
        code := 404;
      } else if !fs.stat[p].othersRead {
        mmStat := fs.stat[p];
        code := 403;
      } else {
        mmStat := fs.stat[p];
        if code == -1 {
          code := 200;
        }
      }
    }

    /** errorHtml_. */
    method ErrorHtml(fs: Files)
      modifies this
      ensures View() == ErrorPage(old(View()), fs)
    {
      if code in CODE_PATH {
        path := CODE_PATH[code];
        var q := srcDir + path;
        if q in fs.stat {
          mmStat := fs.stat[q];
        }
      }
    }

    /** addStateLine_: returns what it appended. */
    method AddStateLine(buff: Buffer) returns (line: string)
      requires buff.Valid()
      modifies this, buff
      ensures View() == old(View()).(code := KnownCode(old(code)))
      ensures line == StatusLine(code) && buff.Valid() && buff.Contents() == old(buff.Contents()) + line
    {
      if code !in CODE_STATUS {
        code := 400;
      }
      var status := CODE_STATUS[code];
      line := "HTTP/1.1 " + (IntToString(code) + (" " + status + "\r\n"));
      buff.Append(line);
    }

    /** addHeader_: returns the Connection part and the Content-type part it appended. */
    method AddHeader(buff: Buffer) returns (conn: string, ct: string)
      requires buff.Valid()
      modifies buff
      ensures conn == ConnectionText(isKeepAlive) && ct == ContentTypeText(path)
      ensures buff.Valid() && buff.Contents() == old(buff.Contents()) + conn + ct
    {
      ghost var b0 := buff.Contents();
      buff.Append("Connection: ");
      if isKeepAlive {
        buff.Append("keep-alive\r\n");
        buff.Append("keep-alive: max=6, timeout=120\r\n");
        AppendRegroup(b0 + "Connection: ", "keep-alive\r\n", "keep-alive: max=6, timeout=120\r\n");
        AppendRegroup(b0, "Connection: ", KEEP_ALIVE_HEADERS);
      } else {
        buff.Append("close\r\n");
        AppendRegroup(b0, "Connection: ", "close\r\n");
      }
      conn := ConnectionText(isKeepAlive);
      var t := GetFileType();
      ct := "Content-type: " + t + "\r\n";
      buff.Append(ct);
    }

    /** addContent_: returns what it appended. */
    method AddContent(buff: Buffer, fs: Files) returns (content: string)
      requires buff.Valid()
      modifies this, buff
      ensures View() == ContentState(old(View()), fs)
      ensures content == ContentText(old(View()), fs) && buff.Valid() && buff.Contents() == old(buff.Contents()) + content
    {
      var p := srcDir + path;
      if p !in fs.openable {
        content := ErrorContent(buff, OPEN_FAILED);
        return;
      }
      if p !in fs.mappable || mmStat.size == 0 {
        content := ErrorContent(buff, MAP_FAILED);
        return;
      }
      mmFile := Some(p);
      content := "Content-length: " + (NatToString(mmStat.size) + "\r\n\r\n");
      buff.Append(content);
    }

    /** errorContent: returns what it appended. */
    method ErrorContent(buff: Buffer, message: string) returns (content: string)
      requires buff.Valid()
      modifies buff
      ensures content == ErrorContentText(code, message) && buff.Valid() && buff.Contents() == old(buff.Contents()) + content
    {
      var body := "<html><title>Error</title>";
      body := body + "<body bgcolor=\"ffffff\">";
      var status;
      if code in CODE_STATUS {
        status := CODE_STATUS[code];
      } else {
        status := "Bad Request";
      }
      body := body + IntToString(code) + " : " + status + "\n";
      body := body + "<p>" + message + "</p>";
      body := body + "<hr><em>TinyWebServer</em></body></html>";
      assert body == ErrorBody(code, message);
      var head := "Content-length: " + (NatToString(|body|) + "\r\n\r\n");
      buff.Append(head);
      buff.Append(body);
      AppendRegroup(old(buff.Contents()), head, body);
      content := head + body;
    }
  }
}
