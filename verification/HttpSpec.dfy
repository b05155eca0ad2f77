/**
The HTTP parser of examples/http_server (http_parser.c) one byte at a time:
strict mode, callbacks that return 0, no pausing.  The exit for upgraded
connections ends the run and counts as not accepting.
*/
module HttpSpec {
  import opened Options

  const CR: char := '\r'
  const LF: char := '\n'
  /** ULLONG_MAX, the sentinel for a message without Content-Length. */
  const NO_LENGTH: nat := 0xffff_ffff_ffff_ffff

  datatype Kind = Request | Response | Both

  datatype S =
    | Dead
    | StartReqOrRes | ResOrRespH
    | StartRes | ResH | ResHT | ResHTT | ResHTTP | ResFirstMajor | ResMajor | ResFirstMinor | ResMinor
    | ResFirstStatusCode | ResStatusCode | ResStatusStart | ResStatus | ResLineAlmostDone
    | StartReq | ReqMethod | ReqSpacesBeforeUrl
    | ReqSchema | ReqSchemaSlash | ReqSchemaSlashSlash | ReqServerStart | ReqServer | ReqServerWithAt
    | ReqPath | ReqQueryStringStart | ReqQueryString | ReqFragmentStart | ReqFragment
    | ReqHttpStart | ReqHttpH | ReqHttpHT | ReqHttpHTT | ReqHttpHTTP
    | ReqFirstMajor | ReqMajor | ReqFirstMinor | ReqMinor | ReqLineAlmostDone
    | HeaderFieldStart | HeaderField
    | HeaderValueDiscardWs | HeaderValueDiscardWsAlmostDone | HeaderValueDiscardLws
    | HeaderValueStart | HeaderValue | HeaderValueLws | HeaderAlmostDone
    | ChunkSizeStart | ChunkSize | ChunkParameters | ChunkSizeAlmostDone
    | HeadersAlmostDone | HeadersDone
    | ChunkData | ChunkDataAlmostDone | ChunkDataDone
    | BodyIdentity | BodyIdentityEof | MessageDone

  datatype H =
    | General | C | CO | CON
    | MatchingConnection | MatchingProxyConnection | MatchingContentLength | MatchingTransferEncoding | MatchingUpgrade
    | Connection | ContentLength | TransferEncoding | Upgrade
    | MatchingChunked | TokenStart | MatchingKeepAlive | MatchingClose | MatchingConnUpgrade | Token
    | Chunked | KeepAlive | Close | ConnUpgrade

  datatype Flags = Flags(chunked: bool, keepAlive: bool, close: bool, connUpgrade: bool, trailing: bool,
      upgrade: bool, contentLength: bool)

  const NO_FLAGS: Flags := Flags(false, false, false, false, false, false, false)

  /** struct http_parser, without nread and errno; verb holds the method's name. */
  datatype Parser = Parser(
    kind: Kind, state: S, h: H, index: nat, flags: Flags, length: nat,
    major: nat, minor: nat, status: nat, verb: string, upgrade: bool, lenient: bool)

  datatype Field = Url | Status | HeaderFieldName | HeaderFieldValue | Body

  /** What the callbacks are told, data byte by byte. */
  datatype Event =
    | MessageBegin
    | HeadersComplete
    | MessageComplete
    | ChunkHeader(length: nat)
    | ChunkComplete
    | Data(field: Field, byte: char)

  /** What one pass through the switch does: fail, be done with the byte, or look at it again. */
  datatype Act =
    | Fail
    | Done(p: Parser, events: seq<Event>)
    | Again(p: Parser, events: seq<Event>)

  // ---------------------------------------------------------------------------
  // Characters
  // ---------------------------------------------------------------------------

  predicate IsNum(c: char) { '0' <= c <= '9' }

  predicate IsAlpha(c: char) { 'a' <= c <= 'z' || 'A' <= c <= 'Z' }

  function Digit(c: char): nat
    requires IsNum(c)
  {
    c as int - '0' as int
  }

  /** LOWER: the bit 0x20 set. */
  function Lower(c: char): char {
    if c < '\U{100}' && c as int / 32 % 2 == 0 then (c as int + 32) as char else c
  }

  /** The token table, which also lowercases; '\0' for what is no token. */
  function TokenOf(c: char): char {
    if 'A' <= c <= 'Z' then (c as int + 32) as char
    else if IsNum(c) || 'a' <= c <= 'z' || c in "!#$%&'*+-.^_`|~" then c
    else '\0'
  }

  predicate IsUrlChar(c: char) { '!' <= c <= '~' && c != '#' && c != '?' }

  predicate IsUserinfoChar(c: char) { IsAlpha(c) || IsNum(c) || c in "-_.!~*'()%;:&=+$," }

  predicate IsHeaderChar(c: char) { c == CR || c == LF || c == '\t' || (c > '\U{01f}' && c != '\U{07f}') }

  /** The unhex table: its upper half is never initialized, so bytes above 127 read as the digit 0. */
  function Unhex(c: char): Option<nat> {
    if IsNum(c) then Some(Digit(c))
    else if 'a' <= c <= 'f' then Some(c as int - 'a' as int + 10)
    else if 'A' <= c <= 'F' then Some(c as int - 'A' as int + 10)
    else if c >= '\U{080}' then Some(0)
    else None
  }

  // ---------------------------------------------------------------------------
  // Decisions about the message
  // ---------------------------------------------------------------------------

  /** http_message_needs_eof */
  predicate NeedsEof(p: Parser) {
    && p.kind != Request
    && !(p.status / 100 == 1 || p.status == 204 || p.status == 304)
    && !p.flags.chunked
    && p.length == NO_LENGTH
  }

  /** http_should_keep_alive */
  predicate ShouldKeepAlive(p: Parser) {
    && (if p.major > 0 && p.minor > 0 then !p.flags.close else p.flags.keepAlive)
    && !NeedsEof(p)
  }

  /** NEW_MESSAGE() */
  function NewMessage(p: Parser): S {
    if !ShouldKeepAlive(p) then Dead else if p.kind == Request then StartReq else StartRes
  }

  // ---------------------------------------------------------------------------
  // The switch
  // ---------------------------------------------------------------------------

  function To(p: Parser, s: S): Act { Done(p.(state := s), []) }

  function Expect(p: Parser, c: char, want: char, s: S): Act {
    if c == want then To(p, s) else Fail
  }

  /** A number of at most three digits. */
  function Grow(n: nat, c: char): Option<nat>
    requires IsNum(c)
  {
    var t := n * 10 + Digit(c);
    if t > 999 then None else Some(t)
  }

  predicate IsResponseState(s: S) {
    s.StartRes? || s.ResH? || s.ResHT? || s.ResHTT? || s.ResHTTP? || s.ResFirstMajor? || s.ResMajor? || s.ResFirstMinor?
    || s.ResMinor? || s.ResFirstStatusCode? || s.ResStatusCode? || s.ResStatusStart? || s.ResStatus?
        || s.ResLineAlmostDone?
  }

  /** The states of the first line, and the one behind it. */
  predicate IsLineState(s: S) {
    IsResponseState(s) || IsRequestState(s) || s.HeaderFieldStart?
  }

  /** http_parser.c:758-952 */
  function ActResponse(p: Parser, c: char): (r: Act)
    requires IsResponseState(p.state)
    ensures !r.Again?
    ensures r.Done? ==> IsLineState(r.p.state) && (r.p.length == p.length || r.p.length == NO_LENGTH)
  {
    match p.state
    case StartRes =>
      var q := p.(flags := NO_FLAGS, length := NO_LENGTH);
      if c == 'H' then Done(q.(state := ResH), [MessageBegin])
      else if c == CR || c == LF then Done(q, [MessageBegin])
      else Fail
    case ResH => Expect(p, c, 'T', ResHT)
    case ResHT => Expect(p, c, 'T', ResHTT)
    case ResHTT => Expect(p, c, 'P', ResHTTP)
    case ResHTTP => Expect(p, c, '/', ResFirstMajor)
    case ResFirstMajor => if IsNum(c) then To(p.(major := Digit(c)), ResMajor) else Fail
    case ResMajor =>
      if c == '.' then To(p, ResFirstMinor)
      else if !IsNum(c) || Grow(p.major, c).None? then Fail
      else Done(p.(major := Grow(p.major, c).value), [])
    case ResFirstMinor => if IsNum(c) then To(p.(minor := Digit(c)), ResMinor) else Fail
    case ResMinor =>
      if c == ' ' then To(p, ResFirstStatusCode)
      else if !IsNum(c) || Grow(p.minor, c).None? then Fail
      else Done(p.(minor := Grow(p.minor, c).value), [])
    case ResFirstStatusCode =>
      if IsNum(c) then To(p.(status := Digit(c)), ResStatusCode) else if c == ' ' then Done(p, []) else Fail
    case ResStatusCode =>
      if IsNum(c) then (if Grow(p.status, c).None? then Fail else Done(p.(status := Grow(p.status, c).value), []))
      else if c == ' ' then To(p, ResStatusStart)
      else if c == CR then To(p, ResLineAlmostDone)
      else if c == LF then To(p, HeaderFieldStart)
      else Fail
    case ResStatusStart =>
      if c == CR then To(p, ResLineAlmostDone)
      else if c == LF then To(p, HeaderFieldStart)
      else To(p.(index := 0), ResStatus)
    case ResStatus =>
      if c == CR then To(p, ResLineAlmostDone) else if c == LF then To(p, HeaderFieldStart) else Done(p, [])
    case _ => Expect(p, c, LF, HeaderFieldStart)
  }

  /** The method a first letter suggests. */
  function FirstMethod(c: char): Option<string> {
    match c
    case 'A' => Some("ACL") case 'B' => Some("BIND") case 'C' => Some("CONNECT") case 'D' => Some("DELETE")
    case 'G' => Some("GET") case 'H' => Some("HEAD") case 'L' => Some("LOCK") case 'M' => Some("MKCOL")
    case 'N' => Some("NOTIFY") case 'O' => Some("OPTIONS") case 'P' => Some("POST") case 'R' => Some("REPORT")
    case 'S' => Some("SUBSCRIBE") case 'T' => Some("TRACE") case 'U' => Some("UNLOCK")
    case _ => None
  }

  /** The method meant when the letter at index is not that of m. */
  function OtherMethod(m: string, index: nat, c: char): Option<string> {
    if m == "POST" && index == 1 && c == 'U' then Some("PUT")
    else if m == "POST" && index == 1 && c == 'A' then Some("PATCH")
    else if m == "CONNECT" && index == 1 && c == 'H' then Some("CHECKOUT")
    else if m == "CONNECT" && index == 2 && c == 'P' then Some("COPY")
    else if m == "MKCOL" && index == 1 && c == 'O' then Some("MOVE")
    else if m == "MKCOL" && index == 1 && c == 'E' then Some("MERGE")
    else if m == "MKCOL" && index == 2 && c == 'A' then Some("MKACTIVITY")
    else if m == "MKCOL" && index == 3 && c == 'A' then Some("MKCALENDAR")
    else if m == "SUBSCRIBE" && index == 1 && c == 'E' then Some("SEARCH")
    else if m == "REPORT" && index == 2 && c == 'B' then Some("REBIND")
    else if m == "POST" && index == 1 && c == 'R' then Some("PROPFIND")
    else if m == "PROPFIND" && index == 4 && c == 'P' then Some("PROPPATCH")
    else if m == "PUT" && index == 2 && c == 'R' then Some("PURGE")
    else if m == "LOCK" && index == 1 && c == 'I' then Some("LINK")
    else if m == "UNLOCK" && index == 2 && c == 'S' then Some("UNSUBSCRIBE")
    else if m == "UNLOCK" && index == 2 && c == 'B' then Some("UNBIND")
    else if m == "UNLOCK" && index == 3 && c == 'I' then Some("UNLINK")
    else if m == "MKCOL" && index == 1 && c == '-' then Some("M-SEARCH")
    else None
  }

  predicate IsUrlState(s: S) {
    s.ReqSchema? || s.ReqSchemaSlash? || s.ReqSchemaSlashSlash? || s.ReqServerStart? || s.ReqServer?
        || s.ReqServerWithAt?
    || s.ReqPath? || s.ReqQueryStringStart? || s.ReqQueryString? || s.ReqFragmentStart? || s.ReqFragment?
  }

  /** parse_url_char; Dead stands for an invalid character. */
  function ParseUrlChar(s: S, c: char): (r: S)
    ensures r == Dead || IsUrlState(r)
  {
    if c == ' ' || c == CR || c == LF || c == '\t' || c == '\U{00c}' then Dead
    else
      match s
      case ReqSpacesBeforeUrl => if c == '/' || c == '*' then ReqPath else if IsAlpha(c) then ReqSchema else Dead
      case ReqSchema => if IsAlpha(c) then ReqSchema else if c == ':' then ReqSchemaSlash else Dead
      case ReqSchemaSlash => if c == '/' then ReqSchemaSlashSlash else Dead
      case ReqSchemaSlashSlash => if c == '/' then ReqServerStart else Dead
      case ReqServerWithAt => if c == '@' then Dead else ServerChar(c)
      case ReqServerStart => ServerChar(c)
      case ReqServer => ServerChar(c)
      case ReqPath =>
        if IsUrlChar(c) then ReqPath else if c == '?' then ReqQueryStringStart else if c == '#' then ReqFragmentStart
            else Dead
      case ReqQueryStringStart =>
        if IsUrlChar(c) || c == '?' then ReqQueryString else if c == '#' then ReqFragmentStart else Dead
      case ReqQueryString =>
        if IsUrlChar(c) || c == '?' then ReqQueryString else if c == '#' then ReqFragmentStart else Dead
      case ReqFragmentStart =>
        if IsUrlChar(c) || c == '?' then ReqFragment else if c == '#' then ReqFragmentStart else Dead
      case ReqFragment => if IsUrlChar(c) || c == '?' || c == '#' then ReqFragment else Dead
      case _ => Dead
  }

  function ServerChar(c: char): (r: S)
    ensures r == Dead || IsUrlState(r)
  {
    if c == '/' then ReqPath
    else if c == '?' then ReqQueryStringStart
    else if c == '@' then ReqServerWithAt
    else if IsUserinfoChar(c) || c == '[' || c == ']' then ReqServer
    else Dead
  }

  function UrlStep(p: Parser, s: S, c: char): Act {
    var next := ParseUrlChar(s, c);
    if next == Dead then Fail else To(p, next)
  }

  /** http_parser.c:1071-1124 */
  function ActUrl(p: Parser, c: char): (r: Act)
    ensures r.Done? ==> (IsUrlState(r.p.state) || r.p.state.ReqHttpStart? || r.p.state.ReqLineAlmostDone?
        || r.p.state.HeaderFieldStart?)
    ensures !r.Again? && (r.Done? ==> r.p.length == p.length)
  {
    if p.state.ReqSchema? || p.state.ReqSchemaSlash? || p.state.ReqSchemaSlashSlash? || p.state.ReqServerStart? then
      UrlStep(p, p.state, c)
    else if c == ' ' then To(p, ReqHttpStart)
    else if c == CR then To(p.(major := 0, minor := 9), ReqLineAlmostDone)
    else if c == LF then To(p.(major := 0, minor := 9), HeaderFieldStart)
    else UrlStep(p, p.state, c)
  }

  predicate IsRequestState(s: S) {
    s.StartReq? || s.ReqMethod? || s.ReqSpacesBeforeUrl? || IsUrlState(s) || s.ReqHttpStart? || s.ReqHttpH?
        || s.ReqHttpHT?
    || s.ReqHttpHTT? || s.ReqHttpHTTP? || s.ReqFirstMajor? || s.ReqMajor? || s.ReqFirstMinor? || s.ReqMinor?
        || s.ReqLineAlmostDone?
  }

  /** http_parser.c:954-1051 */
  function ActMethod(p: Parser, c: char): (r: Act)
    requires p.state.StartReq? || p.state.ReqMethod?
    ensures !r.Again?
    ensures r.Done? ==> IsLineState(r.p.state) && (r.p.length == p.length || r.p.length == NO_LENGTH)
  {
    if p.state == StartReq then
      if c == CR || c == LF then Done(p, [])
      else if FirstMethod(c).None? then Fail
      else
        Done(p.(flags := NO_FLAGS, length := NO_LENGTH, verb := FirstMethod(c).value, index := 1, state := ReqMethod),
            [MessageBegin])
    else if c == '\0' then Fail
    else if c == ' ' && p.index == |p.verb| then To(p, ReqSpacesBeforeUrl)
    else if p.index < |p.verb| && c == p.verb[p.index] then Done(p.(index := p.index + 1), [])
    else if OtherMethod(p.verb, p.index, c).Some? then
      Done(p.(verb := OtherMethod(p.verb, p.index, c).value, index := p.index + 1), [])
    else Fail
  }

  /** http_parser.c:1053-1246 */
  function ActRequest(p: Parser, c: char): (r: Act)
    requires IsRequestState(p.state)
    ensures !r.Again?
    ensures r.Done? ==> IsLineState(r.p.state) && (r.p.length == p.length || r.p.length == NO_LENGTH)
  {
    match p.state
    case ReqSpacesBeforeUrl =>
      if c == ' ' then Done(p, [])
      else UrlStep(p, if p.verb == "CONNECT" then ReqServerStart else ReqSpacesBeforeUrl, c)
    case ReqHttpStart => if c == 'H' then To(p, ReqHttpH) else if c == ' ' then Done(p, []) else Fail
    case ReqHttpH => Expect(p, c, 'T', ReqHttpHT)
    case ReqHttpHT => Expect(p, c, 'T', ReqHttpHTT)
    case ReqHttpHTT => Expect(p, c, 'P', ReqHttpHTTP)
    case ReqHttpHTTP => Expect(p, c, '/', ReqFirstMajor)
    case ReqFirstMajor => if IsNum(c) && c != '0' then To(p.(major := Digit(c)), ReqMajor) else Fail
    case ReqMajor =>
      if c == '.' then To(p, ReqFirstMinor)
      else if !IsNum(c) || Grow(p.major, c).None? then Fail
      else Done(p.(major := Grow(p.major, c).value), [])
    case ReqFirstMinor => if IsNum(c) then To(p.(minor := Digit(c)), ReqMinor) else Fail
    case ReqMinor =>
      if c == CR then To(p, ReqLineAlmostDone)
      else if c == LF then To(p, HeaderFieldStart)
      else if !IsNum(c) || Grow(p.minor, c).None? then Fail
      else Done(p.(minor := Grow(p.minor, c).value), [])
    case ReqLineAlmostDone => Expect(p, c, LF, HeaderFieldStart)
    case _ => ActUrl(p, c)
  }

  // ---------------------------------------------------------------------------
  // Headers
  // ---------------------------------------------------------------------------

  /** One more letter of a name being matched: on to good when it is the last, to bad when it is another. */
  function Match(word: string, index: nat, c: char, same: H, good: H, bad: H): H {
    if index >= |word| || c != word[index] then bad else if index == |word| - 1 then good else same
  }

  /** The loop body of s_header_field; c is the lowercased token, ch the byte. */
  function FieldMatch(h: H, index: nat, c: char, ch: char): (H, nat) {
    match h
    case General => (h, index)
    case C => (if c == 'o' then CO else General, index + 1)
    case CO => (if c == 'n' then CON else General, index + 1)
    case CON => (if c == 'n' then MatchingConnection else if c == 't' then MatchingContentLength
        else General, index + 1)
    case MatchingConnection => (Match("connection", index + 1, c, h, Connection, General), index + 1)
    case MatchingProxyConnection => (Match("proxy-connection", index + 1, c, h, Connection, General), index + 1)
    case MatchingContentLength => (Match("content-length", index + 1, c, h, ContentLength, General), index + 1)
    case MatchingTransferEncoding => (Match("transfer-encoding", index + 1, c, h, TransferEncoding, General), index + 1)
    case MatchingUpgrade => (Match("upgrade", index + 1, c, h, Upgrade, General), index + 1)
    case _ => (if ch != ' ' then General else h, index)
  }

  /** What the loop of s_header_value keeps in local variables and fields. */
  datatype Value = Value(h: H, index: nat, flags: Flags, length: nat)

  function ValueOf(p: Parser): Value { Value(p.h, p.index, p.flags, p.length) }

  function WithValue(p: Parser, v: Value): Parser
  {
    p.(h := v.h, index := v.index, flags := v.flags, length := v.length)
  }

  function TokenAfterComma(c: char): H {
    if c == 'k' then MatchingKeepAlive
    else if c == 'c' then MatchingClose
    else if c == 'u' then MatchingConnUpgrade
    else if TokenOf(c) != '\0' then Token
    else if c == ' ' || c == '\t' then TokenStart
    else General
  }

  /** A connection token is complete: its flag. */
  function FlagFor(h: H, f: Flags): Flags {
    match h
    case KeepAlive => f.(keepAlive := true)
    case Close => f.(close := true)
    case ConnUpgrade => f.(connUpgrade := true)
    case _ => f
  }

  function AfterToken(v: Value, ch: char): Value {
    if ch == ',' then v.(flags := FlagFor(v.h, v.flags), h := TokenStart, index := 0)
    else if ch != ' ' then v.(h := Token)
    else v
  }

  /** The loop body of s_header_value on a byte that does not end the line. */
  function ValueMatch(v: Value, ch: char): Option<Value> {
    var c := Lower(ch);
    match v.h
    case ContentLength =>
      if ch == ' ' then Some(v)
      else if !IsNum(ch) || (NO_LENGTH - 10) / 10 < v.length then None
      else Some(v.(length := (v.length * 10 + Digit(ch)) % (NO_LENGTH + 1)))
    case MatchingChunked => Some(v.(h := Match("chunked", v.index + 1, c, v.h, Chunked, General), index := v.index + 1))
    case TokenStart => Some(v.(h := TokenAfterComma(c)))
    case MatchingKeepAlive => Some(v.(h := Match("keep-alive", v.index + 1, c, v.h, KeepAlive, Token),
        index := v.index + 1))
    case MatchingClose => Some(v.(h := Match("close", v.index + 1, c, v.h, Close, Token), index := v.index + 1))
    case MatchingConnUpgrade => Some(v.(h := Match("upgrade", v.index + 1, c, v.h, ConnUpgrade, Token),
        index := v.index + 1))
    case Token => Some(if ch == ',' then v.(h := TokenStart, index := 0) else v)
    case Chunked => Some(if ch != ' ' then v.(h := General) else v)
    case General => Some(v)
    case KeepAlive => Some(AfterToken(v, ch))
    case Close => Some(AfterToken(v, ch))
    case ConnUpgrade => Some(AfterToken(v, ch))
    case _ => Some(v.(h := General))
  }

  /** s_header_value_start (http_parser.c:1442-1504) */
  function StartValue(p: Parser, ch: char): (r: Act)
    ensures !r.Again?
    ensures r.Done? ==> r.p.state.HeaderValue? && r.events == []
  {
    var q := p.(state := HeaderValue, index := 0);
    var c := Lower(ch);
    match p.h
    case Upgrade => Done(q.(flags := p.flags.(upgrade := true), h := General), [])
    case TransferEncoding => Done(q.(h := if c == 'c' then MatchingChunked else General), [])
    case ContentLength =>
      if !IsNum(ch) || p.flags.contentLength then Fail
      else Done(q.(flags := p.flags.(contentLength := true), length := Digit(ch)), [])
    case Connection =>
      Done(q.(h := if c == 'k' then MatchingKeepAlive else if c == 'c' then MatchingClose
                   else if c == 'u' then MatchingConnUpgrade else Token), [])
    case TokenStart => Done(q, [])
    case _ => Done(q.(h := General), [])
  }

  /** The flag a finished header line sets. */
  function Finished(p: Parser): Parser {
    p.(flags := if p.h.Chunked? then p.flags.(chunked := true) else FlagFor(p.h, p.flags))
  }

  predicate IsHeaderState(s: S) {
    s.HeaderFieldStart? || s.HeaderField? || s.HeaderValueDiscardWs? || s.HeaderValueDiscardWsAlmostDone?
    || s.HeaderValueDiscardLws? || s.HeaderValueStart? || s.HeaderValue? || s.HeaderValueLws? || s.HeaderAlmostDone?
  }

  function FirstOfField(c: char): H {
    match c
    case 'c' => C
    case 'p' => MatchingProxyConnection
    case 't' => MatchingTransferEncoding
    case 'u' => MatchingUpgrade
    case _ => General
  }

  /** http_parser.c:1248-1773; s_header_field and s_header_value as if the piece were one byte long. */
  function ActHeader(p: Parser, ch: char): Act {
    match p.state
    case HeaderFieldStart =>
      if ch == CR then To(p, HeadersAlmostDone)
      else if ch == LF then Again(p.(state := HeadersAlmostDone), [])
      else if TokenOf(ch) == '\0' then Fail
      else To(p.(index := 0, h := FirstOfField(TokenOf(ch))), HeaderField)
    case HeaderField =>
      if TokenOf(ch) != '\0' then
        var (h, index) := FieldMatch(p.h, p.index, TokenOf(ch), ch);
        Done(p.(h := h, index := index), [])
      else Expect(p, ch, ':', HeaderValueDiscardWs)
    case HeaderValueDiscardWs =>
      if ch == ' ' || ch == '\t' then Done(p, [])
      else if ch == CR then To(p, HeaderValueDiscardWsAlmostDone)
      else if ch == LF then To(p, HeaderValueDiscardLws)
      else StartValue(p, ch)
    case HeaderValueDiscardWsAlmostDone => Expect(p, ch, LF, HeaderValueDiscardLws)
    case HeaderValueDiscardLws =>
      if ch == ' ' || ch == '\t' then To(p, HeaderValueDiscardWs)
      else Again(Finished(p).(state := HeaderFieldStart), [])
    case HeaderValueStart => StartValue(p, ch)
    case HeaderValue =>
      if ch == CR then To(p, HeaderAlmostDone)
      else if ch == LF then Again(p.(state := HeaderAlmostDone), [])
      else if !p.lenient && !IsHeaderChar(ch) then Fail
      else
        var v := ValueMatch(ValueOf(p), ch);
        if v.None? then Fail else Done(WithValue(p, v.value), [])
    case HeaderAlmostDone => Expect(p, ch, LF, HeaderValueLws)
    case _ =>
      if ch == ' ' || ch == '\t' then Again(p.(state := HeaderValueStart), [])
      else Again(Finished(p).(state := HeaderFieldStart), [])
  }

  // ---------------------------------------------------------------------------
  // Bodies
  // ---------------------------------------------------------------------------

  /** s_chunk_size_start and s_chunk_size on a digit. */
  function ChunkDigit(p: Parser, d: nat): Act {
    if (NO_LENGTH - 16) / 16 < p.length then Fail
    else Done(p.(length := (p.length * 16 + d) % (NO_LENGTH + 1)), [])
  }

  /** http_parser.c:1934-2013 and 2038-2052 */
  function ActChunk(p: Parser, ch: char): (r: Act)
    ensures !r.Again?
  {
    match p.state
    case ChunkSizeStart => if Unhex(ch).None? then Fail else To(p.(length := Unhex(ch).value), ChunkSize)
    case ChunkSize =>
      if ch == CR then To(p, ChunkSizeAlmostDone)
      else if Unhex(ch).Some? then ChunkDigit(p, Unhex(ch).value)
      else if ch == ';' || ch == ' ' then To(p, ChunkParameters)
      else Fail
    case ChunkParameters => if ch == CR then To(p, ChunkSizeAlmostDone) else Done(p, [])
    case ChunkSizeAlmostDone =>
      if ch != LF then Fail
      else if p.length == 0 then
        Done(p.(flags := p.flags.(trailing := true), state := HeaderFieldStart), [ChunkHeader(0)])
      else Done(p.(state := ChunkData), [ChunkHeader(p.length)])
    case ChunkDataAlmostDone => Expect(p, ch, CR, ChunkDataDone)
    case _ => if ch == LF then Done(p.(state := ChunkSizeStart), [ChunkComplete]) else Fail
  }

  predicate IsChunkState(s: S) {
    s.ChunkSizeStart? || s.ChunkSize? || s.ChunkParameters? || s.ChunkSizeAlmostDone? || s.ChunkDataAlmostDone?
        || s.ChunkDataDone?
  }

  /** s_headers_almost_done (http_parser.c:1775-1834) */
  function ActHeadersAlmostDone(p: Parser, ch: char): Act {
    if ch != LF then Fail
    else if p.flags.trailing then Again(p.(state := MessageDone), [ChunkComplete])
    else if p.flags.chunked && p.flags.contentLength then Fail
    else
      Again(p.(state := HeadersDone, upgrade := (p.flags.upgrade && p.flags.connUpgrade) || p.verb == "CONNECT"),
          [HeadersComplete])
  }

  /** s_headers_done (http_parser.c:1836-1880); the exit for an upgraded connection fails. */
  function ActHeadersDone(p: Parser, ch: char): (r: Act)
    ensures !r.Again?
  {
    var hasBody := p.flags.chunked || (p.length > 0 && p.length != NO_LENGTH);
    if ch != LF || (p.upgrade && (p.verb == "CONNECT" || !hasBody)) then Fail
    else if p.flags.chunked then To(p, ChunkSizeStart)
    else if p.length == 0 then Done(p.(state := NewMessage(p)), [MessageComplete])
    else if p.length != NO_LENGTH then To(p, BodyIdentity)
    else if !NeedsEof(p) then Done(p.(state := NewMessage(p)), [MessageComplete])
    else To(p, BodyIdentityEof)
  }

  /** The body states as if the piece were one byte long. */
  function ActBody(p: Parser, ch: char): Act {
    match p.state
    case BodyIdentity =>
      if p.length == 0 then Fail
      else if p.length == 1 then Again(p.(length := 0, state := MessageDone), [Data(Body, ch)])
      else Done(p.(length := p.length - 1), [Data(Body, ch)])
    case ChunkData =>
      if p.length == 0 then Fail
      else Done(p.(length := p.length - 1, state := if p.length == 1 then ChunkDataAlmostDone else ChunkData),
          [Data(Body, ch)])
    case BodyIdentityEof => Done(p, [Data(Body, ch)])
    case _ => if p.upgrade then Fail else Done(p.(state := NewMessage(p)), [MessageComplete])
  }

  /** http_parser.c:711-756 */
  function ActStart(p: Parser, ch: char): Act {
    match p.state
    case Dead => if ch == CR || ch == LF then Done(p, []) else Fail
    case StartReqOrRes =>
      if ch == CR || ch == LF then Done(p, [])
      else if ch == 'H' then Done(p.(flags := NO_FLAGS, length := NO_LENGTH, state := ResOrRespH), [MessageBegin])
      else Again(p.(flags := NO_FLAGS, length := NO_LENGTH, kind := Request, state := StartReq), [])
    case _ =>
      if ch == 'T' then To(p.(kind := Response), ResHT)
      else if ch == 'E' then To(p.(kind := Request, verb := "HEAD", index := 2), ReqMethod)
      else Fail
  }

  /** One pass through the switch. */
  function Switch(p: Parser, ch: char): Act {
    if IsHeaderState(p.state) then ActHeader(p, ch)
    else if IsChunkState(p.state) then ActChunk(p, ch)
    else if p.state.HeadersAlmostDone? then ActHeadersAlmostDone(p, ch)
    else if p.state.HeadersDone? then ActHeadersDone(p, ch)
    else if IsResponseState(p.state) then ActResponse(p, ch)
    else if p.state.StartReq? || p.state.ReqMethod? then ActMethod(p, ch)
    else if IsRequestState(p.state) then ActRequest(p, ch)
    else if p.state.Dead? || p.state.StartReqOrRes? || p.state.ResOrRespH? then ActStart(p, ch)
    else ActBody(p, ch)
  }

  // ---------------------------------------------------------------------------
  // One byte
  // ---------------------------------------------------------------------------

  /** How often a byte may still be looked at again. */
  function Rank(s: S): nat {
    match s
    case HeaderValue => 6
    case StartReqOrRes => 5
    case HeaderAlmostDone => 5
    case HeaderValueLws => 4
    case HeaderValueDiscardLws => 4
    case HeaderFieldStart => 3
    case HeadersAlmostDone => 2
    case BodyIdentity => 2
    case _ => 1
  }

  /** The reexecute jumps end. */
  lemma RankFalls(p: Parser, ch: char)
    requires Switch(p, ch).Again?
    ensures Rank(Switch(p, ch).p.state) < Rank(p.state)
  {
    hide ActResponse, ActMethod, ActRequest, ActChunk, ActHeadersDone, ActHeader, ActBody, ActStart;
    if IsHeaderState(p.state) {
      HeaderRankFalls(p, ch);
    } else {
      OtherRankFalls(p, ch);
    }
  }

  lemma HeaderRankFalls(p: Parser, ch: char)
    requires IsHeaderState(p.state) && ActHeader(p, ch).Again?
    ensures Rank(ActHeader(p, ch).p.state) < Rank(p.state)
  {
    hide StartValue, FieldMatch, ValueMatch, TokenOf, FirstOfField, FlagFor;
  }

  lemma OtherRankFalls(p: Parser, ch: char)
    ensures p.state.BodyIdentity? && ActBody(p, ch).Again? ==> ActBody(p, ch).p.state == MessageDone
    ensures ActBody(p, ch).Again? ==> p.state.BodyIdentity?
    ensures ActStart(p, ch).Again? ==> p.state.StartReqOrRes? && ActStart(p, ch).p.state == StartReq
  {
  }

  /** The field a byte belongs to when the parser stands in state s behind it. */
  function FieldAt(s: S): Option<Field> {
    if IsUrlState(s) then Some(Url)
    else if s.ResStatus? then Some(Status)
    else if s.HeaderField? then Some(HeaderFieldName)
    else if s.HeaderValue? then Some(HeaderFieldValue)
    else None
  }

  function Marked(s: S, ch: char): seq<Event> {
    if FieldAt(s).Some? then [Data(FieldAt(s).value, ch)] else []
  }

  datatype Step = Step(p: Parser, events: seq<Event>)

  /** One byte: the switch, as often as it asks for. */
  function Byte(p: Parser, ch: char): Option<Step>
    decreases Rank(p.state)
  {
    match Switch(p, ch)
    case Fail => None
    case Done(q, events) => Some(Step(q, events + Marked(q.state, ch)))
    case Again(q, events) =>
      (RankFalls(p, ch);
      var rest := Byte(q, ch);
      if rest.None? then None else Some(Step(rest.value.p, events + rest.value.events)))
  }

  /** Bytes one after the other; None when any of them is not accepted. */
  function Run(p: Parser, bytes: string): Option<Step> {
    if bytes == [] then Some(Step(p, []))
    else
      var before := Run(p, bytes[..|bytes| - 1]);
      if before.None? then None
      else
        var last := Byte(before.value.p, bytes[|bytes| - 1]);
        if last.None? then None else Some(Step(last.value.p, before.value.events + last.value.events))
  }

  /** first, then second, which began where first ended. */
  function Then(first: Step, second: Option<Step>): Option<Step> {
    if second.None? then None else Some(Step(second.value.p, first.events + second.value.events))
  }

  lemma ThenIsAssociative(a: Step, b: Step, c: Option<Step>)
    ensures Then(Step(b.p, a.events + b.events), c) == Then(a, Then(b, c))
  {
    if c.Some? { assert a.events + b.events + c.value.events == a.events + (b.events + c.value.events); }
  }

  lemma {:induction false} RunConcat(p: Parser, a: string, b: string)
    ensures Run(p, a + b) == if Run(p, a).None? then None else Then(Run(p, a).value, Run(Run(p, a).value.p, b))
    decreases |b|
  {
    hide Byte;
    if b == [] {
      assert a + b == a;
      if Run(p, a).Some? { assert Run(p, a).value.events + [] == Run(p, a).value.events; }
    } else {
      var last := |b| - 1;
      assert (a + b)[..|a + b| - 1] == a + b[..last] && (a + b)[|a + b| - 1] == b[last];
      RunConcat(p, a, b[..last]);
      RunSnoc(p, a + b[..last], b[last]);
      assert a + b == a + b[..last] + [b[last]];
      if Run(p, a).Some? {
        var first := Run(p, a).value;
        assert b == b[..last] + [b[last]];
        RunSnoc(first.p, b[..last], b[last]);
        if Run(first.p, b[..last]).Some? {
          var second := Run(first.p, b[..last]).value;
          ThenIsAssociative(first, second, Byte(second.p, b[last]));
        }
      }
    }
  }

  lemma RunSnoc(p: Parser, a: string, ch: char)
    ensures Run(p, a + [ch]) == if Run(p, a).None? then None else Then(Run(p, a).value, Byte(Run(p, a).value.p, ch))
  {
    hide Byte;
    assert (a + [ch])[..|a|] == a;
  }
}
