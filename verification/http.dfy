/**
 * The embedded HTTP server the pyzord web API runs on: the per-character
 * request parser and the driver that feeds it, the reply and response
 * objects with their header and commit rules, the stock replies and the
 * MIME table. Each character of a request stands for one byte read from
 * the socket; the character predicates give the same answers whether the
 * platform's char is signed or not.
 */
module Http {
  import opened Wrappers
  import opened Bytes

  // ---------------------------------------------------------------- MIME types

  /** The mappings table, in its declared order. */
  const MAPPINGS: seq<(string, string)> := [
    ("gif", "image/gif"), ("htm", "text/html"), ("html", "text/html"),
    ("jpg", "image/jpeg"), ("png", "image/png")]

  /** The same table read as a map from extension to MIME type. */
  const MIME_TYPES: map<string, string> := map[
    "gif" := "image/gif", "htm" := "text/html", "html" := "text/html",
    "jpg" := "image/jpeg", "png" := "image/png"]

  /** The first entry of `table` at or after index k whose extension is `ext`. */
  function FindMapping(table: seq<(string, string)>, k: nat, ext: string): (r: Option<string>)
    requires k <= |table|
    ensures r.Some? <==> exists i :: k <= i < |table| && table[i].0 == ext
    ensures r.Some? ==> exists i :: k <= i < |table| && table[i] == (ext, r.value)
    decreases |table| - k
  {
    if k == |table| then None
    else if table[k].0 == ext then Some(table[k].1)
    else FindMapping(table, k + 1, ext)
  }

  /** The table scan and the map agree on every extension. */
  lemma MappingsAgree(ext: string)
    ensures FindMapping(MAPPINGS, 0, ext).Some? <==> ext in MIME_TYPES
    ensures ext in MIME_TYPES ==> FindMapping(MAPPINGS, 0, ext) == Some(MIME_TYPES[ext])
  {
    assert MAPPINGS[0].0 == "gif" && MAPPINGS[1].0 == "htm" && MAPPINGS[2].0 == "html";
    assert MAPPINGS[3].0 == "jpg" && MAPPINGS[4].0 == "png";
  }

  /** mime_types::extension_to_type: the table's type, and text/plain for anything else. */
  function ExtensionToType(ext: string): (t: string)
    ensures ext in MIME_TYPES ==> t == MIME_TYPES[ext]
    ensures ext !in MIME_TYPES ==> t == "text/plain"
  {
    MappingsAgree(ext);
    match FindMapping(MAPPINGS, 0, ext)
    case Some(t) => t
    case None => "text/plain"
  }

  // ---------------------------------------------------------------- characters

  /** request_parser::is_char: a 7-bit character. */
  predicate IsChar(c: char) { c as int <= 127 }

  /** request_parser::is_ctl: 0 to 31 and DEL. */
  predicate IsCtl(c: char) { c as int <= 31 || c as int == 127 }

  /** request_parser::is_tspecial: the separators of RFC 2616 section 2.2. */
  predicate IsTSpecial(c: char) {
    || c == '(' || c == ')' || c == '<' || c == '>' || c == '@'
    || c == ',' || c == ';' || c == ':' || c == '\\' || c == '"'
    || c == '/' || c == '[' || c == ']' || c == '?' || c == '='
    || c == '{' || c == '}' || c == ' ' || c == '\t'
  }

  /** A character the parser takes into a method or a header name. */
  predicate IsToken(c: char) { IsChar(c) && !IsCtl(c) && !IsTSpecial(c) }

  predicate TokenText(s: string) { forall i :: 0 <= i < |s| ==> IsToken(s[i]) }

  /** What the parser accepts into a URI: no control character, and a space ends it. */
  predicate UriText(s: string) { forall i :: 0 <= i < |s| ==> !IsCtl(s[i]) && s[i] != ' ' }

  /** What the parser accepts into a header value: no control character. */
  predicate ValueText(s: string) { forall i :: 0 <= i < |s| ==> !IsCtl(s[i]) }

  // ---------------------------------------------------------------- requests

  datatype Header = Header(name: string, value: string)

  /** The request being filled in (`verb` is the source's `method` member); the version numbers are C ints, taken here without a bound. */
  datatype Request = Request(verb: string, uri: string, major: int, minor: int, headers: seq<Header>)

  /** The index of the first header called `name`. */
  function FindHeader(hs: seq<Header>, name: string): (r: Option<nat>)
    ensures r.Some? ==> r.value < |hs| && hs[r.value].name == name
    ensures r.Some? ==> forall j :: 0 <= j < r.value ==> hs[j].name != name
    ensures r.None? ==> forall j :: 0 <= j < |hs| ==> hs[j].name != name
    decreases |hs|
  {
    if |hs| == 0 then None
    else if hs[0].name == name then Some(0)
    else
      var rest := FindHeader(hs[1..], name);
      if rest.Some? then Some(rest.value + 1) else None
  }

  /** request::has_header. */
  function HasHeader(req: Request, name: string): (b: bool)
    ensures b <==> exists i :: 0 <= i < |req.headers| && req.headers[i].name == name
  {
    FindHeader(req.headers, name).Some?
  }

  datatype HeaderMissing = CannotFindHeader   // "Cannot find header"

  /** Value of the first header of that name in a header list, as request::get_header searches. */
  function HeaderValue(hs: seq<Header>, name: string): (r: Result<string, HeaderMissing>)
    ensures r.Success? <==> exists i :: 0 <= i < |hs| && hs[i].name == name
    ensures r.Success? ==>
      exists i :: 0 <= i < |hs| && hs[i] == Header(name, r.value) && forall j :: 0 <= j < i ==> hs[j].name != name
  {
    match FindHeader(hs, name)
    case Some(i) => Success(hs[i].value)
    case None => Failure(CannotFindHeader)
  }

  /** request::get_header: throws when no header has that name. */
  function GetHeader(req: Request, name: string): (r: Result<string, HeaderMissing>)
    ensures r.Success? <==> HasHeader(req, name)
    ensures r.Success? ==> exists i :: 0 <= i < |req.headers| && req.headers[i] == Header(name, r.value)
  {
    HeaderValue(req.headers, name)
  }

  // ---------------------------------------------------------------- the parser

  datatype State =
    | MethodStart | Method | UriStart | Uri
    | VersionH | VersionT1 | VersionT2 | VersionP | VersionSlash
    | MajorStart | Major | MinorStart | Minor | Newline1
    | HeaderLineStart | HeaderLws | HeaderName | SpaceBeforeValue | HeaderValueState
    | Newline2 | Newline3

  /** boost::tribool: true, false or indeterminate. */
  datatype Tribool = Yes | No | Indeterminate

  datatype Parser = Parser(state: State, req: Request)

  datatype Step = Step(parser: Parser, result: Tribool)

  /** The states in which the parser is working on the last header. */
  predicate InHeader(s: State) {
    s.HeaderLws? || s.HeaderName? || s.SpaceBeforeValue? || s.HeaderValueState? || s.Newline2?
  }

  /** The parser's own invariant: a header exists whenever it is being filled in. */
  predicate Sound(p: Parser) {
    InHeader(p.state) ==> |p.req.headers| > 0
  }

  /** Everything the parser has stored is text its grammar admits, and uri_start is never reached. */
  predicate Good(p: Parser) {
    && Sound(p)
    && p.state != UriStart
    && TokenText(p.req.verb)
    && UriText(p.req.uri)
    && p.req.major >= 0 && p.req.minor >= 0
    && GoodHeaders(p.req.headers)
  }

  predicate GoodHeader(h: Header) {
    |h.name| > 0 && TokenText(h.name) && ValueText(h.value)
  }

  predicate GoodHeaders(hs: seq<Header>) {
    forall i :: 0 <= i < |hs| ==> GoodHeader(hs[i])
  }

  function Fresh(): (p: Parser)
    ensures Good(p) && p.state == MethodStart
  {
    Parser(MethodStart, Request("", "", 0, 0, []))
  }

  function LastHeader(req: Request): Header
    requires |req.headers| > 0
  {
    req.headers[|req.headers| - 1]
  }

  function WithLast(req: Request, h: Header): (r: Request)
    requires |req.headers| > 0
    ensures |r.headers| == |req.headers| && LastHeader(r) == h
    ensures forall i :: 0 <= i < |r.headers| - 1 ==> r.headers[i] == req.headers[i]
    ensures r.verb == req.verb && r.uri == req.uri && r.major == req.major && r.minor == req.minor
  {
    req.(headers := req.headers[..|req.headers| - 1] + [h])
  }

  function AppendName(req: Request, c: char): Request
    requires |req.headers| > 0
  {
    WithLast(req, Header(LastHeader(req).name + [c], LastHeader(req).value))
  }

  function AppendValue(req: Request, c: char): Request
    requires |req.headers| > 0
  {
    WithLast(req, Header(LastHeader(req).name, LastHeader(req).value + [c]))
  }

  function Go(s: State, req: Request): Step {
    Step(Parser(s, req), Indeterminate)
  }

  /** A state that accepts exactly one character and moves on. */
  function Expect(p: Parser, c: char, want: char, next: State): Step {
    if c == want then Go(next, p.req) else Step(p, No)
  }

  /**
   * request_parser::consume. A decision (true or false) leaves the state
   * and the request as they were; the answer is true exactly when a line
   * feed follows the carriage return of the empty line after the headers.
   */
  function Consume(p: Parser, c: char): (r: Step)
    requires Sound(p)
    ensures Sound(r.parser)
    ensures r.result != Indeterminate ==> r.parser == p
  {
    var req := p.req;
    match p.state
    case MethodStart =>
      if !IsToken(c) then Step(p, No)
      else Go(Method, req.(verb := req.verb + [c]))
    case Method =>
      if c == ' ' then Go(Uri, req)
      else if !IsToken(c) then Step(p, No)
      else Go(Method, req.(verb := req.verb + [c]))
    case UriStart =>
      if IsCtl(c) then Step(p, No)
      else Go(Uri, req.(uri := req.uri + [c]))
    case Uri =>
      if c == ' ' then Go(VersionH, req)
      else if IsCtl(c) then Step(p, No)
      else Go(Uri, req.(uri := req.uri + [c]))
    case VersionH => Expect(p, c, 'H', VersionT1)
    case VersionT1 => Expect(p, c, 'T', VersionT2)
    case VersionT2 => Expect(p, c, 'T', VersionP)
    case VersionP => Expect(p, c, 'P', VersionSlash)
    case VersionSlash =>
      if c == '/' then Go(MajorStart, req.(major := 0, minor := 0)) else Step(p, No)
    case MajorStart =>
      if IsDigit(c) then Go(Major, req.(major := req.major * 10 + DigitValue(c))) else Step(p, No)
    case Major =>
      if c == '.' then Go(MinorStart, req)
      else if IsDigit(c) then Go(Major, req.(major := req.major * 10 + DigitValue(c)))
      else Step(p, No)
    case MinorStart =>
      if IsDigit(c) then Go(Minor, req.(minor := req.minor * 10 + DigitValue(c))) else Step(p, No)
    case Minor =>
      if c == '\r' then Go(Newline1, req)
      else if IsDigit(c) then Go(Minor, req.(minor := req.minor * 10 + DigitValue(c)))
      else Step(p, No)
    case Newline1 => Expect(p, c, '\n', HeaderLineStart)
    case HeaderLineStart =>
      if c == '\r' then Go(Newline3, req)
      else if |req.headers| > 0 && (c == ' ' || c == '\t') then Go(HeaderLws, req)
      else if !IsToken(c) then Step(p, No)
      else Go(HeaderName, req.(headers := req.headers + [Header([c], "")]))
    case HeaderLws =>
      if c == '\r' then Go(Newline2, req)
      else if c == ' ' || c == '\t' then Go(HeaderLws, req)
      else if IsCtl(c) then Step(p, No)
      else Go(HeaderValueState, AppendValue(req, c))
    case HeaderName =>
      if c == ':' then Go(SpaceBeforeValue, req)
      else if !IsToken(c) then Step(p, No)
      else Go(HeaderName, AppendName(req, c))
    case SpaceBeforeValue => Expect(p, c, ' ', HeaderValueState)
    case HeaderValueState =>
      if c == '\r' then Go(Newline2, req)
      else if IsCtl(c) then Step(p, No)
      else Go(HeaderValueState, AppendValue(req, c))
    case Newline2 => Expect(p, c, '\n', HeaderLineStart)
    case Newline3 => Step(p, if c == '\n' then Yes else No)
  }

  /**
   * What one character decides: true exactly on the line feed after the
   * empty line's carriage return; a continuation line only once a header
   * exists; exactly one space after a header name's colon; and uri_start
   * is never entered from another state.
   */
  lemma ConsumeDecides(p: Parser, c: char)
    requires Sound(p)
    ensures var r := Consume(p, c);
      && (r.result == Yes <==> p.state == Newline3 && c == '\n')
      && (r.parser.state == UriStart ==> p.state == UriStart)
      && (p.state == HeaderLineStart && (c == ' ' || c == '\t') ==>
           (r.result == Indeterminate <==> |p.req.headers| > 0))
      && (p.state == SpaceBeforeValue ==> (r.result == Indeterminate <==> c == ' '))
  {
  }

  /** Every step keeps what the parser stores within its grammar. */
  lemma ConsumeKeepsGood(p: Parser, c: char)
    requires Sound(p)
    ensures Good(p) ==> Good(Consume(p, c).parser)
  {
    if !Good(p) {
    } else if p.state == HeaderName {
      HeaderNameKeepsGood(p, c);
    } else if p.state == HeaderValueState || p.state == HeaderLws {
      HeaderValueKeepsGood(p, c);
    } else if p.state == HeaderLineStart {
      HeaderStartKeepsGood(p, c);
    } else if p.state == MethodStart || p.state == Method {
      TokenSnoc(p.req.verb, c);
    } else {
      OtherKeepsGood(p, c);
    }
  }

  lemma OtherKeepsGood(p: Parser, c: char)
    requires Good(p) && p.state != HeaderName && p.state != HeaderValueState && p.state != HeaderLws
    requires p.state != HeaderLineStart && p.state != MethodStart && p.state != Method
    ensures Good(Consume(p, c).parser)
  {
    if p.state == Uri {
      assert UriText(p.req.uri + [c]) <==> !IsCtl(c) && c != ' ' by {
        assert (p.req.uri + [c])[|p.req.uri|] == c;
      }
    }
  }

  lemma HeaderNameKeepsGood(p: Parser, c: char)
    requires Good(p) && p.state == HeaderName
    ensures Good(Consume(p, c).parser)
  {
    if c != ':' && IsToken(c) {
      var h := LastHeader(p.req);
      TokenSnoc(h.name, c);
      WithLastKeepsGood(p.req, Header(h.name + [c], h.value));
    }
  }

  lemma HeaderValueKeepsGood(p: Parser, c: char)
    requires Good(p) && (p.state == HeaderValueState || p.state == HeaderLws)
    ensures Good(Consume(p, c).parser)
  {
    if c != '\r' && !IsCtl(c) {
      var h := LastHeader(p.req);
      assert ValueText(h.value + [c]);
      WithLastKeepsGood(p.req, Header(h.name, h.value + [c]));
    }
  }

  lemma HeaderStartKeepsGood(p: Parser, c: char)
    requires Good(p) && p.state == HeaderLineStart
    ensures Good(Consume(p, c).parser)
  {
    if IsToken(c) {
      assert TokenText([c]);
      assert GoodHeaders(p.req.headers + [Header([c], "")]);
    }
  }

  lemma TokenSnoc(s: string, c: char)
    requires TokenText(s)
    ensures TokenText(s + [c]) <==> IsToken(c)
  {
    assert (s + [c])[|s|] == c;
  }

  lemma WithLastKeepsGood(req: Request, h: Header)
    requires |req.headers| > 0 && GoodHeaders(req.headers) && GoodHeader(h)
    ensures GoodHeaders(WithLast(req, h).headers)
  {
  }

  /** The outcome of request_parser::parse: the answer, how much input it used, and the parser after it. */
  datatype Outcome = Outcome(result: Tribool, used: nat, parser: Parser)

  /**
   * request_parser::parse: characters are fed in order until one of them
   * decides; with no decision all of the input is used.
   */
  function Parse(p: Parser, input: string): (o: Outcome)
    requires Sound(p)
    ensures Sound(o.parser)
    ensures o.used <= |input|
    ensures o.result == Indeterminate ==> o.used == |input|
    ensures o.result != Indeterminate ==> o.used > 0
    decreases |input|
  {
    if |input| == 0 then Outcome(Indeterminate, 0, p)
    else
      var st := Consume(p, input[0]);
      if st.result != Indeterminate then Outcome(st.result, 1, st.parser)
      else
        var o := Parse(st.parser, input[1..]);
        Outcome(o.result, o.used + 1, o.parser)
  }

  /** Whatever the parser reads, what it stores stays within the grammar. */
  lemma {:induction false} ParseKeepsGood(p: Parser, input: string)
    requires Good(p)
    ensures Good(Parse(p, input).parser)
    decreases |input|
  {
    if |input| > 0 {
      ConsumeKeepsGood(p, input[0]);
      var st := Consume(p, input[0]);
      if st.result == Indeterminate {
        ParseKeepsGood(st.parser, input[1..]);
      }
    }
  }

  /** Once a character decides, nothing after it is looked at. */
  lemma {:induction false} DecisionIgnoresRest(p: Parser, a: string, b: string)
    requires Sound(p) && Parse(p, a).result != Indeterminate
    ensures Parse(p, a + b) == Parse(p, a)
    decreases |a|
  {
    assert (a + b)[0] == a[0] && (a + b)[1..] == a[1..] + b;
    var st := Consume(p, a[0]);
    if st.result == Indeterminate {
      DecisionIgnoresRest(st.parser, a[1..], b);
    }
  }

  /** The parser state is kept between reads: a request split in two parses as if it came whole. */
  lemma {:induction false} ResumeAcrossReads(p: Parser, a: string, b: string)
    requires Sound(p) && Parse(p, a).result == Indeterminate
    ensures var o := Parse(Parse(p, a).parser, b);
      Parse(p, a + b) == Outcome(o.result, |a| + o.used, o.parser)
    decreases |a|
  {
    if |a| == 0 {
      assert a + b == b;
    } else {
      assert (a + b)[0] == a[0] && (a + b)[1..] == a[1..] + b;
      var st := Consume(p, a[0]);
      ResumeAcrossReads(st.parser, a[1..], b);
    }
  }

  /** The used count points just past the deciding character, and everything before it was undecided. */
  lemma {:induction false} DecidedByLastUsed(p: Parser, input: string)
    requires Sound(p) && Parse(p, input).result != Indeterminate
    ensures var o := Parse(p, input);
      var before := Parse(p, input[..o.used - 1]);
      && before.result == Indeterminate
      && Consume(before.parser, input[o.used - 1]) == Step(o.parser, o.result)
    decreases |input|
  {
    var o := Parse(p, input);
    var st := Consume(p, input[0]);
    if st.result == Indeterminate {
      var rest := input[1..];
      DecidedByLastUsed(st.parser, rest);
      var k := Parse(st.parser, rest).used;
      assert input[..o.used - 1] == [input[0]] + rest[..k - 1];
      assert input[o.used - 1] == rest[k - 1];
      assert Parse(p, [input[0]]) == Outcome(Indeterminate, 1, st.parser) by {
        assert [input[0]][1..] == [];
      }
      ResumeAcrossReads(p, [input[0]], rest[..k - 1]);
    } else {
      assert input[..0] == [];
    }
  }

  // ---------------------------------------------------------------- parsing a rendered request

  /** The parser reads all of s without a decision and ends in q. */
  predicate Runs(p: Parser, s: string, q: Parser)
    requires Sound(p)
  {
    Parse(p, s) == Outcome(Indeterminate, |s|, q)
  }

  lemma StepRuns(p: Parser, c: char, q: Parser)
    requires Sound(p) && Consume(p, c) == Step(q, Indeterminate)
    ensures Runs(p, [c], q)
  {
    assert [c][1..] == [];
  }

  lemma Chain(p: Parser, a: string, q: Parser, b: string, r: Parser)
    requires Sound(p) && Sound(q) && Runs(p, a, q) && Runs(q, b, r)
    ensures Runs(p, a + b, r)
  {
    ResumeAcrossReads(p, a, b);
  }

  lemma {:induction false} MethodRuns(req: Request, s: string)
    requires TokenText(s)
    ensures Runs(Parser(Method, req), s, Parser(Method, req.(verb := req.verb + s)))
    decreases |s|
  {
    if |s| == 0 {
      assert req.(verb := req.verb + s) == req;
    } else {
      var n := |s| - 1;
      var mid := req.(verb := req.verb + s[..n]);
      MethodRuns(req, s[..n]);
      assert mid.verb + [s[n]] == req.verb + s;
      StepRuns(Parser(Method, mid), s[n], Parser(Method, req.(verb := req.verb + s)));
      Chain(Parser(Method, req), s[..n], Parser(Method, mid), [s[n]], Parser(Method, req.(verb := req.verb + s)));
      assert s[..n] + [s[n]] == s;
    }
  }

  lemma {:induction false} UriRuns(req: Request, s: string)
    requires UriText(s)
    ensures Runs(Parser(Uri, req), s, Parser(Uri, req.(uri := req.uri + s)))
    decreases |s|
  {
    if |s| == 0 {
      assert req.(uri := req.uri + s) == req;
    } else {
      var n := |s| - 1;
      var mid := req.(uri := req.uri + s[..n]);
      UriRuns(req, s[..n]);
      assert mid.uri + [s[n]] == req.uri + s;
      StepRuns(Parser(Uri, mid), s[n], Parser(Uri, req.(uri := req.uri + s)));
      Chain(Parser(Uri, req), s[..n], Parser(Uri, mid), [s[n]], Parser(Uri, req.(uri := req.uri + s)));
      assert s[..n] + [s[n]] == s;
    }
  }

  /** A number accumulated digit by digit as the parser does: n = n * 10 + digit. */
  function Accumulate(n: int, d: string): int
    requires AllDigits(d)
    decreases |d|
  {
    if |d| == 0 then n else Accumulate(n, d[..|d| - 1]) * 10 + DigitValue(d[|d| - 1])
  }

  /** Accumulating from zero gives the digits' decimal value. */
  lemma {:induction false} AccumulateFromZero(d: string)
    requires AllDigits(d)
    ensures Accumulate(0, d) == DigitsValue(d)
    decreases |d|
  {
    if |d| > 0 {
      AccumulateFromZero(d[..|d| - 1]);
    }
  }

  lemma {:induction false} MajorRuns(req: Request, d: string)
    requires AllDigits(d)
    ensures Runs(Parser(Major, req), d, Parser(Major, req.(major := Accumulate(req.major, d))))
    decreases |d|
  {
    if |d| == 0 {
      assert req.(major := Accumulate(req.major, d)) == req;
    } else {
      var n := |d| - 1;
      var mid := req.(major := Accumulate(req.major, d[..n]));
      var last := req.(major := Accumulate(req.major, d));
      MajorRuns(req, d[..n]);
      assert d[..n] + [d[n]] == d;
      StepRuns(Parser(Major, mid), d[n], Parser(Major, last));
      Chain(Parser(Major, req), d[..n], Parser(Major, mid), [d[n]], Parser(Major, last));
    }
  }

  lemma {:induction false} MinorRuns(req: Request, d: string)
    requires AllDigits(d)
    ensures Runs(Parser(Minor, req), d, Parser(Minor, req.(minor := Accumulate(req.minor, d))))
    decreases |d|
  {
    if |d| == 0 {
      assert req.(minor := Accumulate(req.minor, d)) == req;
    } else {
      var n := |d| - 1;
      var mid := req.(minor := Accumulate(req.minor, d[..n]));
      var last := req.(minor := Accumulate(req.minor, d));
      MinorRuns(req, d[..n]);
      assert d[..n] + [d[n]] == d;
      StepRuns(Parser(Minor, mid), d[n], Parser(Minor, last));
      Chain(Parser(Minor, req), d[..n], Parser(Minor, mid), [d[n]], Parser(Minor, last));
    }
  }

  /** Accumulating a leading digit first. */
  lemma {:induction false} AccumulateCons(n: int, c: char, t: string)
    requires IsDigit(c) && AllDigits(t)
    ensures Accumulate(n, [c] + t) == Accumulate(n * 10 + DigitValue(c), t)
    decreases |t|
  {
    var d := [c] + t;
    if |t| > 0 {
      assert d[..|d| - 1] == [c] + t[..|t| - 1];
      AccumulateCons(n, c, t[..|t| - 1]);
    } else {
      assert d[..0] == [];
    }
  }

  /** Digits read from a start state whose number is 0 leave their decimal value. */
  lemma MajorDigitsRuns(req: Request, d: string)
    requires req.major == 0 && |d| > 0 && AllDigits(d)
    ensures Runs(Parser(MajorStart, req), d, Parser(Major, req.(major := DigitsValue(d))))
  {
    var first := req.(major := DigitValue(d[0]));
    var last := req.(major := DigitsValue(d));
    StepRuns(Parser(MajorStart, req), d[0], Parser(Major, first));
    MajorRuns(first, d[1..]);
    AccumulateDigits(d);
    Chain(Parser(MajorStart, req), [d[0]], Parser(Major, first), d[1..], Parser(Major, last));
  }

  lemma MinorDigitsRuns(req: Request, d: string)
    requires req.minor == 0 && |d| > 0 && AllDigits(d)
    ensures Runs(Parser(MinorStart, req), d, Parser(Minor, req.(minor := DigitsValue(d))))
  {
    var first := req.(minor := DigitValue(d[0]));
    var last := req.(minor := DigitsValue(d));
    StepRuns(Parser(MinorStart, req), d[0], Parser(Minor, first));
    MinorRuns(first, d[1..]);
    AccumulateDigits(d);
    Chain(Parser(MinorStart, req), [d[0]], Parser(Minor, first), d[1..], Parser(Minor, last));
  }

  /** Reading the first digit and then accumulating the rest gives the digits' value. */
  lemma AccumulateDigits(d: string)
    requires |d| > 0 && AllDigits(d)
    ensures [d[0]] + d[1..] == d
    ensures Accumulate(DigitValue(d[0]), d[1..]) == DigitsValue(d)
  {
    assert [d[0]] + d[1..] == d;
    AccumulateCons(0, d[0], d[1..]);
    AccumulateFromZero(d);
  }

  /** The decimal text of n, read from a start state whose number is 0, leaves n. */
  lemma MajorNumberRuns(req: Request, n: nat)
    requires req.major == 0
    ensures Runs(Parser(MajorStart, req), Decimal(n), Parser(Major, req.(major := n)))
  {
    MajorDigitsRuns(req, Decimal(n));
    DecimalValue(n);
  }

  lemma MinorNumberRuns(req: Request, n: nat)
    requires req.minor == 0
    ensures Runs(Parser(MinorStart, req), Decimal(n), Parser(Minor, req.(minor := n)))
  {
    MinorDigitsRuns(req, Decimal(n));
    DecimalValue(n);
  }

  lemma WithLastTwice(req: Request, h: Header, h': Header)
    requires |req.headers| > 0
    ensures WithLast(WithLast(req, h), h') == WithLast(req, h')
  {
    var n := |req.headers| - 1;
    assert WithLast(req, h).headers[..n] == req.headers[..n];
  }

  lemma {:induction false} HeaderNameRuns(req: Request, s: string)
    requires |req.headers| > 0 && TokenText(s)
    ensures var h := LastHeader(req);
      Runs(Parser(HeaderName, req), s, Parser(HeaderName, WithLast(req, Header(h.name + s, h.value))))
    decreases |s|
  {
    var h := LastHeader(req);
    var goal := Parser(HeaderName, WithLast(req, Header(h.name + s, h.value)));
    if |s| == 0 {
      assert h.name + s == h.name;
      assert req.headers[..|req.headers| - 1] + [h] == req.headers;
    } else {
      var n := |s| - 1;
      var mid := WithLast(req, Header(h.name + s[..n], h.value));
      HeaderNameRuns(req, s[..n]);
      WithLastTwice(req, Header(h.name + s[..n], h.value), Header(h.name + s[..n] + [s[n]], h.value));
      assert h.name + s[..n] + [s[n]] == h.name + s;
      StepRuns(Parser(HeaderName, mid), s[n], goal);
      Chain(Parser(HeaderName, req), s[..n], Parser(HeaderName, mid), [s[n]], goal);
      assert s[..n] + [s[n]] == s;
    }
  }

  lemma {:induction false} HeaderValueRuns(req: Request, s: string)
    requires |req.headers| > 0 && ValueText(s)
    ensures var h := LastHeader(req);
      Runs(Parser(HeaderValueState, req), s, Parser(HeaderValueState, WithLast(req, Header(h.name, h.value + s))))
    decreases |s|
  {
    var h := LastHeader(req);
    var goal := Parser(HeaderValueState, WithLast(req, Header(h.name, h.value + s)));
    if |s| == 0 {
      assert h.value + s == h.value;
      assert req.headers[..|req.headers| - 1] + [h] == req.headers;
    } else {
      var n := |s| - 1;
      var mid := WithLast(req, Header(h.name, h.value + s[..n]));
      HeaderValueRuns(req, s[..n]);
      WithLastTwice(req, Header(h.name, h.value + s[..n]), Header(h.name, h.value + s[..n] + [s[n]]));
      assert h.value + s[..n] + [s[n]] == h.value + s;
      StepRuns(Parser(HeaderValueState, mid), s[n], goal);
      Chain(Parser(HeaderValueState, req), s[..n], Parser(HeaderValueState, mid), [s[n]], goal);
      assert s[..n] + [s[n]] == s;
    }
  }

  // ---------------------------------------------------------------- rendering a request

  /** A request the grammar can carry: a non-empty method, and non-empty token header names. */
  predicate Renderable(r: Request) {
    && |r.verb| > 0 && TokenText(r.verb)
    && UriText(r.uri)
    && r.major >= 0 && r.minor >= 0
    && GoodHeaders(r.headers)
  }

  function HeaderLine(h: Header): string {
    h.name + ": " + h.value + "\r\n"
  }

  function HeaderLines(hs: seq<Header>): string
    decreases |hs|
  {
    if |hs| == 0 then "" else HeaderLine(hs[0]) + HeaderLines(hs[1..])
  }

  function Version(major: nat, minor: nat): string {
    "HTTP/" + Decimal(major) + "." + Decimal(minor) + "\r\n"
  }

  /** The request line and the header lines. */
  function Head(r: Request): string
    requires r.major >= 0 && r.minor >= 0
  {
    r.verb + " " + r.uri + " " + Version(r.major, r.minor) + HeaderLines(r.headers)
  }

  /** The text of a request in the form the parser reads: the head and an empty line. */
  function Render(r: Request): (s: string)
    requires r.major >= 0 && r.minor >= 0
    ensures |s| > |r.verb| + 1 && s[..|r.verb|] == r.verb && s[|r.verb|] == ' '
    ensures s[|s| - 2..] == "\r\n"
  {
    Head(r) + "\r\n"
  }

  /** The literal "HTTP/" zeroes both version numbers. */
  lemma ProtocolRuns(req: Request)
    ensures Runs(Parser(VersionH, req), "HTTP/", Parser(MajorStart, req.(major := 0, minor := 0)))
  {
    var z := req.(major := 0, minor := 0);
    StepRuns(Parser(VersionH, req), 'H', Parser(VersionT1, req));
    StepRuns(Parser(VersionT1, req), 'T', Parser(VersionT2, req));
    Chain(Parser(VersionH, req), ['H'], Parser(VersionT1, req), ['T'], Parser(VersionT2, req));
    StepRuns(Parser(VersionT2, req), 'T', Parser(VersionP, req));
    StepRuns(Parser(VersionP, req), 'P', Parser(VersionSlash, req));
    Chain(Parser(VersionT2, req), ['T'], Parser(VersionP, req), ['P'], Parser(VersionSlash, req));
    StepRuns(Parser(VersionSlash, req), '/', Parser(MajorStart, z));
    Chain(Parser(VersionT2, req), ['T'] + ['P'], Parser(VersionSlash, req), ['/'], Parser(MajorStart, z));
    Chain(Parser(VersionH, req), ['H'] + ['T'], Parser(VersionT2, req), ['T'] + ['P'] + ['/'], Parser(MajorStart, z));
    assert ['H'] + ['T'] + (['T'] + ['P'] + ['/']) == "HTTP/";
  }

  lemma VersionRuns(req: Request, major: nat, minor: nat)
    ensures Runs(Parser(VersionH, req), Version(major, minor),
      Parser(HeaderLineStart, req.(major := major, minor := minor)))
  {
    var m := req.(major := major, minor := 0);
    var mm := req.(major := major, minor := minor);
    ProtocolMajorRuns(req, major);
    MinorPartRuns(m, minor);
    Chain(Parser(VersionH, req), "HTTP/" + Decimal(major), Parser(Major, m), "." + Decimal(minor) + "\r\n", Parser(HeaderLineStart, mm));
    assert "HTTP/" + Decimal(major) + ("." + Decimal(minor) + "\r\n") == Version(major, minor);
  }

  lemma ProtocolMajorRuns(req: Request, major: nat)
    ensures Runs(Parser(VersionH, req), "HTTP/" + Decimal(major), Parser(Major, req.(major := major, minor := 0)))
  {
    var z := req.(major := 0, minor := 0);
    ProtocolRuns(req);
    MajorNumberRuns(z, major);
    Chain(Parser(VersionH, req), "HTTP/", Parser(MajorStart, z), Decimal(major), Parser(Major, z.(major := major)));
  }

  /** The dot, the minor number and the line end. */
  lemma MinorPartRuns(req: Request, minor: nat)
    requires req.minor == 0
    ensures Runs(Parser(Major, req), "." + Decimal(minor) + "\r\n", Parser(HeaderLineStart, req.(minor := minor)))
  {
    var mm := req.(minor := minor);
    StepRuns(Parser(Major, req), '.', Parser(MinorStart, req));
    MinorNumberRuns(req, minor);
    Chain(Parser(Major, req), ".", Parser(MinorStart, req), Decimal(minor), Parser(Minor, mm));
    VersionEndRuns(mm);
    Chain(Parser(Major, req), "." + Decimal(minor), Parser(Minor, mm), "\r\n", Parser(HeaderLineStart, mm));
  }

  lemma VersionEndRuns(req: Request)
    ensures Runs(Parser(Minor, req), "\r\n", Parser(HeaderLineStart, req))
  {
    StepRuns(Parser(Minor, req), '\r', Parser(Newline1, req));
    StepRuns(Parser(Newline1, req), '\n', Parser(HeaderLineStart, req));
    Chain(Parser(Minor, req), ['\r'], Parser(Newline1, req), ['\n'], Parser(HeaderLineStart, req));
    assert ['\r'] + ['\n'] == "\r\n";
  }

  /** The request line takes a fresh parser to the first header line with method, URI and version stored. */
  lemma RequestLineRuns(r: Request)
    requires Renderable(r)
    ensures Runs(Fresh(), r.verb + " " + r.uri + " " + Version(r.major, r.minor),
      Parser(HeaderLineStart, r.(headers := [])))
  {
    var v := r.verb;
    var r0 := Request([v[0]], "", 0, 0, []);
    var r1 := r0.(verb := v);
    var r2 := r1.(uri := r.uri);
    StepRuns(Fresh(), v[0], Parser(Method, r0));
    MethodRuns(r0, v[1..]);
    assert [v[0]] + v[1..] == v;
    Chain(Fresh(), [v[0]], Parser(Method, r0), v[1..], Parser(Method, r1));
    StepRuns(Parser(Method, r1), ' ', Parser(Uri, r1));
    Chain(Fresh(), v, Parser(Method, r1), " ", Parser(Uri, r1));
    UriRuns(r1, r.uri);
    Chain(Fresh(), v + " ", Parser(Uri, r1), r.uri, Parser(Uri, r2));
    StepRuns(Parser(Uri, r2), ' ', Parser(VersionH, r2));
    Chain(Fresh(), v + " " + r.uri, Parser(Uri, r2), " ", Parser(VersionH, r2));
    VersionRuns(r2, r.major, r.minor);
    Chain(Fresh(), v + " " + r.uri + " ", Parser(VersionH, r2), Version(r.major, r.minor),
      Parser(HeaderLineStart, r2.(major := r.major, minor := r.minor)));
    assert r2.(major := r.major, minor := r.minor) == r.(headers := []);
  }

  /** One header line appends that header. */
  lemma HeaderLineRuns(req: Request, h: Header)
    requires GoodHeader(h)
    ensures Runs(Parser(HeaderLineStart, req), HeaderLine(h),
      Parser(HeaderLineStart, req.(headers := req.headers + [h])))
  {
    var p := Parser(HeaderLineStart, req);
    var r2 := req.(headers := req.headers + [Header(h.name, "")]);
    var r3 := req.(headers := req.headers + [h]);
    HeaderNameLineRuns(req, h.name);
    var s1 := h.name + ": ";
    HeaderValueLineRuns(req, h);
    Chain(p, s1, Parser(HeaderValueState, r2), h.value + "\r\n", Parser(HeaderLineStart, r3));
    assert s1 + (h.value + "\r\n") == HeaderLine(h);
  }

  /** A header name, its colon and the one space take the parser to the value with an empty header appended. */
  lemma HeaderNameLineRuns(req: Request, name: string)
    requires |name| > 0 && TokenText(name)
    ensures Runs(Parser(HeaderLineStart, req), name + ": ",
      Parser(HeaderValueState, req.(headers := req.headers + [Header(name, "")])))
  {
    var c := name[0];
    var p := Parser(HeaderLineStart, req);
    var r1 := req.(headers := req.headers + [Header([c], "")]);
    var r2 := req.(headers := req.headers + [Header(name, "")]);
    StepRuns(p, c, Parser(HeaderName, r1));
    HeaderNameRuns(r1, name[1..]);
    assert [c] + name[1..] == name;
    assert r1.headers[..|r1.headers| - 1] == req.headers;
    assert WithLast(r1, Header(name, "")) == r2;
    Chain(p, [c], Parser(HeaderName, r1), name[1..], Parser(HeaderName, r2));
    ColonSpaceRuns(r2);
    Chain(p, name, Parser(HeaderName, r2), ": ", Parser(HeaderValueState, r2));
  }

  lemma ColonSpaceRuns(req: Request)
    requires |req.headers| > 0
    ensures Runs(Parser(HeaderName, req), ": ", Parser(HeaderValueState, req))
  {
    StepRuns(Parser(HeaderName, req), ':', Parser(SpaceBeforeValue, req));
    StepRuns(Parser(SpaceBeforeValue, req), ' ', Parser(HeaderValueState, req));
    Chain(Parser(HeaderName, req), [':'], Parser(SpaceBeforeValue, req), [' '], Parser(HeaderValueState, req));
    assert [':'] + [' '] == ": ";
  }

  lemma CrLfRuns(st: State, req: Request)
    requires st == HeaderValueState || st == HeaderLws
    requires |req.headers| > 0
    ensures Runs(Parser(st, req), "\r\n", Parser(HeaderLineStart, req))
  {
    StepRuns(Parser(st, req), '\r', Parser(Newline2, req));
    StepRuns(Parser(Newline2, req), '\n', Parser(HeaderLineStart, req));
    Chain(Parser(st, req), ['\r'], Parser(Newline2, req), ['\n'], Parser(HeaderLineStart, req));
    assert ['\r'] + ['\n'] == "\r\n";
  }

  /** The value and the line end fill in the header appended by its name. */
  lemma HeaderValueLineRuns(req: Request, h: Header)
    requires ValueText(h.value)
    ensures Runs(Parser(HeaderValueState, req.(headers := req.headers + [Header(h.name, "")])), h.value + "\r\n",
      Parser(HeaderLineStart, req.(headers := req.headers + [h])))
  {
    var r2 := req.(headers := req.headers + [Header(h.name, "")]);
    var r3 := req.(headers := req.headers + [h]);
    HeaderValueRuns(r2, h.value);
    assert r2.headers[..|r2.headers| - 1] == req.headers;
    assert "" + h.value == h.value;
    assert WithLast(r2, Header(h.name, h.value)) == r3;
    CrLfRuns(HeaderValueState, r3);
    Chain(Parser(HeaderValueState, r2), h.value, Parser(HeaderValueState, r3), "\r\n", Parser(HeaderLineStart, r3));
  }

  lemma {:induction false} HeaderLinesRuns(req: Request, hs: seq<Header>)
    requires GoodHeaders(hs)
    ensures Runs(Parser(HeaderLineStart, req), HeaderLines(hs),
      Parser(HeaderLineStart, req.(headers := req.headers + hs)))
    decreases |hs|
  {
    if |hs| == 0 {
      assert req.headers + hs == req.headers;
    } else {
      var mid := req.(headers := req.headers + [hs[0]]);
      HeaderLineRuns(req, hs[0]);
      HeaderLinesRuns(mid, hs[1..]);
      assert mid.headers + hs[1..] == req.headers + hs;
      Chain(Parser(HeaderLineStart, req), HeaderLine(hs[0]), Parser(HeaderLineStart, mid),
        HeaderLines(hs[1..]), Parser(HeaderLineStart, req.(headers := req.headers + hs)));
    }
  }

  /**
   * A rendered request parses back to itself: the parser answers true on
   * the final line feed, reports exactly the rendered text as used, and
   * holds the request; whatever follows is not read.
   */
  lemma ParseRender(r: Request, rest: string)
    requires Renderable(r)
    ensures Parse(Fresh(), Render(r) + rest) == Outcome(Yes, |Render(r)|, Parser(Newline3, r))
  {
    var q := Parser(Newline3, r);
    HeadRuns(r);
    var a := Head(r) + "\r";
    assert Render(r) + rest == a + ("\n" + rest);
    ResumeAcrossReads(Fresh(), a, "\n" + rest);
    assert ("\n" + rest)[0] == '\n';
  }

  /** Up to the carriage return of the empty line, nothing is decided. */
  lemma HeadRuns(r: Request)
    requires Renderable(r)
    ensures Runs(Fresh(), Head(r) + "\r", Parser(Newline3, r))
  {
    var line := r.verb + " " + r.uri + " " + Version(r.major, r.minor);
    RequestLineRuns(r);
    HeaderLinesRuns(r.(headers := []), r.headers);
    assert r.(headers := []).(headers := [] + r.headers) == r;
    Chain(Fresh(), line, Parser(HeaderLineStart, r.(headers := [])), HeaderLines(r.headers), Parser(HeaderLineStart, r));
    StepRuns(Parser(HeaderLineStart, r), '\r', Parser(Newline3, r));
    Chain(Fresh(), Head(r), Parser(HeaderLineStart, r), "\r", Parser(Newline3, r));
  }

  /** The parser never gets to uri_start, so "GET" with an empty URI is a complete request. */
  lemma EmptyUriAccepted()
    ensures Parse(Fresh(), "GET  HTTP/1.0\r\n\r\n").result == Yes
  {
    var r := Request("GET", "", 1, 0, []);
    assert IsToken('G') && IsToken('E') && IsToken('T');
    assert TokenText("GET");
    assert Renderable(r);
    assert Decimal(1) == "1";
    assert Decimal(0) == "0";
    assert Version(1, 0) == "HTTP/1.0\r\n";
    assert Head(r) == "GET  HTTP/1.0\r\n";
    assert Render(r) + "" == "GET  HTTP/1.0\r\n\r\n";
    ParseRender(r, "");
  }

  /** A line starting with a space or tab, once a header exists, continues that header's value. */
  lemma ContinuationAppends(req: Request, v: string)
    requires |req.headers| > 0 && |v| > 0 && ValueText(v) && v[0] != ' ' && v[0] != '\t'
    ensures var h := LastHeader(req);
      Runs(Parser(HeaderLineStart, req), " " + v + "\r\n",
        Parser(HeaderLineStart, WithLast(req, Header(h.name, h.value + v))))
  {
    var h := LastHeader(req);
    var r2 := WithLast(req, Header(h.name, h.value + v));
    ContinuationValueRuns(req, v);
    CrLfRuns(HeaderValueState, r2);
    Chain(Parser(HeaderLineStart, req), " " + v, Parser(HeaderValueState, r2), "\r\n", Parser(HeaderLineStart, r2));
  }

  lemma ContinuationValueRuns(req: Request, v: string)
    requires |req.headers| > 0 && |v| > 0 && ValueText(v) && v[0] != ' ' && v[0] != '\t'
    ensures var h := LastHeader(req);
      Runs(Parser(HeaderLineStart, req), " " + v,
        Parser(HeaderValueState, WithLast(req, Header(h.name, h.value + v))))
  {
    var h := LastHeader(req);
    var p := Parser(HeaderLineStart, req);
    var r1 := AppendValue(req, v[0]);
    var r2 := WithLast(req, Header(h.name, h.value + v));
    StepRuns(p, ' ', Parser(HeaderLws, req));
    StepRuns(Parser(HeaderLws, req), v[0], Parser(HeaderValueState, r1));
    Chain(p, [' '], Parser(HeaderLws, req), [v[0]], Parser(HeaderValueState, r1));
    HeaderValueRuns(r1, v[1..]);
    WithLastTwice(req, Header(h.name, h.value + [v[0]]), Header(h.name, h.value + [v[0]] + v[1..]));
    HeadTail(h.value, v);
    var s1 := [' '] + [v[0]];
    Chain(p, s1, Parser(HeaderValueState, r1), v[1..], Parser(HeaderValueState, r2));
    HeadTail([' '], v);
  }

  lemma HeadTail(x: string, v: string)
    requires |v| > 0
    ensures x + [v[0]] + v[1..] == x + v
  {
    assert [v[0]] + v[1..] == v;
  }

  // ---------------------------------------------------------------- replies

  /** reply::status_type and response::status_code share these values. */
  datatype Status =
    | Ok | Created | Accepted | NoContent
    | MultipleChoices | MovedPermanently | MovedTemporarily | NotModified
    | BadRequest | Unauthorized | Forbidden | NotFound
    | InternalServerError | NotImplemented | BadGateway | ServiceUnavailable

  function Code(s: Status): (c: nat)
    ensures 200 <= c <= 503
  {
    match s
    case Ok => 200 case Created => 201 case Accepted => 202 case NoContent => 204
    case MultipleChoices => 300 case MovedPermanently => 301 case MovedTemporarily => 302 case NotModified => 304
    case BadRequest => 400 case Unauthorized => 401 case Forbidden => 403 case NotFound => 404
    case InternalServerError => 500 case NotImplemented => 501 case BadGateway => 502 case ServiceUnavailable => 503
  }

  function Reason(s: Status): string {
    match s
    case Ok => "OK" case Created => "Created" case Accepted => "Accepted" case NoContent => "No Content"
    case MultipleChoices => "Multiple Choices" case MovedPermanently => "Moved Permanently"
    case MovedTemporarily => "Moved Temporarily" case NotModified => "Not Modified"
    case BadRequest => "Bad Request" case Unauthorized => "Unauthorized" case Forbidden => "Forbidden"
    case NotFound => "Not Found" case InternalServerError => "Internal Server Error"
    case NotImplemented => "Not Implemented" case BadGateway => "Bad Gateway"
    case ServiceUnavailable => "Service Unavailable"
  }

  /** Each status has its own code. */
  lemma CodeInjective(a: Status, b: Status)
    requires Code(a) == Code(b)
    ensures a == b
  {
  }

  /** A three-digit number is written with three digits. */
  lemma ThreeDigits(n: nat)
    requires 100 <= n < 1000
    ensures |Decimal(n)| == 3
  {
    assert Decimal(n / 10 / 10) == [DigitChar(n / 100)];
  }

  /**
   * The status line reply::to_buffers sends first: each status has its own
   * literal, and every one of them is the protocol, the code and the
   * reason phrase.
   */
  function StatusLine(s: Status): string {
    "HTTP/1.0 " + Decimal(Code(s)) + " " + Reason(s) + "\r\n"
  }

  /** A client reads the code back from columns 9 to 11 of the status line. */
  lemma StatusLineCode(s: Status)
    ensures |StatusLine(s)| > 14 && StatusLine(s)[..9] == "HTTP/1.0 " && StatusLine(s)[12] == ' '
    ensures AllDigits(StatusLine(s)[9..12]) && DigitsValue(StatusLine(s)[9..12]) == Code(s)
  {
    CodeColumns(Code(s), Reason(s));
  }

  lemma CodeColumns(n: nat, reason: string)
    requires 100 <= n < 1000
    ensures var l := "HTTP/1.0 " + Decimal(n) + " " + reason + "\r\n";
      |l| > 14 && l[..9] == "HTTP/1.0 " && l[12] == ' ' && AllDigits(l[9..12]) && DigitsValue(l[9..12]) == n
  {
    ThreeDigits(n);
    DecimalValue(n);
    var l := "HTTP/1.0 " + Decimal(n) + " " + reason + "\r\n";
    assert l == "HTTP/1.0 " + (Decimal(n) + " " + reason + "\r\n");
    assert l[9..12] == Decimal(n);
  }

  /** The heading of each stock page: the code and reason phrase, except that the 204 page drops the word "No". */
  function Heading(s: Status): string {
    if s == NoContent then "204 Content" else Decimal(Code(s)) + " " + Reason(s)
  }

  /** The HTML page every stock reply but 200 carries. */
  function Page(title: string, heading: string): string {
    "<html><head><title>" + title + "</title></head><body><h1>" + heading + "</h1></body></html>"
  }

  /** stock_replies::to_string: 200 has no body; every other status a page titled with its reason phrase. */
  function StockContent(s: Status): (c: string)
    ensures s == Ok <==> |c| == 0
  {
    if s == Ok then "" else Page(Reason(s), Heading(s))
  }

  /**
   * A reply: the status is None while nothing has assigned it (the member
   * has no initialiser), the headers are kept in order, duplicates and all.
   */
  datatype Reply = Reply(status: Option<Status>, headers: seq<Header>, content: string)

  /** The Content-Length header is present and is the decimal size of the content. */
  predicate ContentLengthOk(r: Reply) {
    HeaderValue(r.headers, "Content-Length") == Success(Decimal(|r.content|))
  }

  /** A reply whose status, two headers and content are set together, as every handler of the web API builds one. */
  function Respond(status: Status, contentType: string, content: string): (r: Reply)
    ensures r.status == Some(status) && r.content == content
    ensures HeaderValue(r.headers, "Content-Length") == Success(Decimal(|content|))
    ensures ContentLengthOk(r)
    ensures HeaderValue(r.headers, "Content-Type") == Success(contentType)
    ensures |r.headers| == 2
  {
    var hs := [Header("Content-Length", Decimal(|content|)), Header("Content-Type", contentType)];
    assert hs[0].name == "Content-Length" && hs[1].name == "Content-Type";
    Reply(Some(status), hs, content)
  }

  /** reply::stock_reply: the stock page with its length and type text/html. */
  function StockReply(s: Status): (r: Reply)
    ensures r.status == Some(s) && r.content == StockContent(s)
    ensures HeaderValue(r.headers, "Content-Length") == Success(Decimal(|r.content|))
    ensures HeaderValue(r.headers, "Content-Type") == Success("text/html")
  {
    Respond(s, "text/html", StockContent(s))
  }

  /** The Content-Length of every stock reply reads back as the length of its content. */
  lemma StockReplyLength(s: Status)
    ensures DigitsValue(HeaderValue(StockReply(s).headers, "Content-Length").value) == |StockReply(s).content|
  {
    DecimalValue(|StockReply(s).content|);
  }

  /** reply::set_header: the first header of that name gets the value; with none, one is appended. */
  function SetHeader(hs: seq<Header>, name: string, value: string): (r: seq<Header>)
    ensures FindHeader(hs, name).Some? ==> |r| == |hs|
    ensures FindHeader(hs, name).None? ==> r == hs + [Header(name, value)]
    ensures FindHeader(hs, name).Some? ==>
      forall i :: 0 <= i < |hs| ==> r[i] == if i == FindHeader(hs, name).value then Header(name, value) else hs[i]
    decreases |hs|
  {
    if |hs| == 0 then [Header(name, value)]
    else if hs[0].name == name then [Header(name, value)] + hs[1..]
    else [hs[0]] + SetHeader(hs[1..], name, value)
  }

  /** After set_header, the name reads back as the value and every other name reads as before. */
  lemma {:induction false} SetHeaderReads(hs: seq<Header>, name: string, value: string, other: string)
    ensures HeaderValue(SetHeader(hs, name, value), other) ==
      if other == name then Success(value) else HeaderValue(hs, other)
    decreases |hs|
  {
    var r := SetHeader(hs, name, value);
    if |hs| > 0 && hs[0].name != name {
      SetHeaderReads(hs[1..], name, value, other);
      assert r[1..] == SetHeader(hs[1..], name, value);
      if hs[0].name != other {
        FindHeaderTail(hs, other);
        FindHeaderTail(r, other);
      }
    } else if |hs| > 0 && other != name {
      assert r[1..] == hs[1..];
      FindHeaderTail(hs, other);
      FindHeaderTail(r, other);
    }
  }

  /** Searching past a first header of another name. */
  lemma FindHeaderTail(hs: seq<Header>, name: string)
    requires |hs| > 0 && hs[0].name != name
    ensures HeaderValue(hs, name) == HeaderValue(hs[1..], name)
  {
  }

  // ---------------------------------------------------------------- responses

  const SERVER_NAME: string := "Asio 0.3.9 / Embedded HTTP Server 0.0.1"

  /** The response object of the handler-function interface; its headers are a map, so one value per name. */
  datatype Response = Response(headers: map<string, string>, content: string, committed: bool, status: Status)

  datatype ResponseError =
    | AlreadyCommitted     // "Response is already committed"
    | MissingContentType   // "Cannot find header Content-Type"

  /** The constructor: status 200, not committed, an HTML content type and the server's name. */
  function NewResponse(): (r: Response)
    ensures !r.committed && r.status == Ok && r.content == ""
    ensures r.headers.Keys == {"Content-Type", "Server"} && r.headers["Content-Type"] == "text/html"
  {
    Response(map["Content-Type" := "text/html", "Server" := SERVER_NAME], "", false, Ok)
  }

  /** response::header(name, value): one value per name, the last one set. */
  function SetResponseHeader(r: Response, name: string, value: string): (r': Response)
    ensures r'.headers.Keys == r.headers.Keys + {name} && r'.headers[name] == value
    ensures forall k :: k in r.headers && k != name ==> r'.headers[k] == r.headers[k]
    ensures r'.content == r.content && r'.committed == r.committed && r'.status == r.status
  {
    r.(headers := r.headers[name := value])
  }

  /** response::content_type() and the content_type setter. */
  function ContentType(r: Response): (t: Result<string, ResponseError>)
    ensures t.Success? <==> "Content-Type" in r.headers
    ensures t.Success? ==> t.value == r.headers["Content-Type"]
  {
    if "Content-Type" in r.headers then Success(r.headers["Content-Type"]) else Failure(MissingContentType)
  }

  function SetContentType(r: Response, t: string): (r': Response)
    ensures ContentType(r') == Success(t)
  {
    SetResponseHeader(r, "Content-Type", t)
  }

  /**
   * response::header(name) as written: the name is not used, and the
   * Content-Type entry is looked up whatever was asked for.
   */
  function ResponseHeaderAsWritten(r: Response, name: string): (t: Result<string, ResponseError>)
    ensures t == ContentType(r)
  {
    if "Content-Type" in r.headers then Success(r.headers["Content-Type"]) else Failure(MissingContentType)
  }

  /** A fresh response asked for its Server header answers with the content type instead. */
  lemma ResponseHeaderIgnoresName()
    ensures ResponseHeaderAsWritten(NewResponse(), "Server") == Success("text/html")
    ensures NewResponse().headers["Server"] != "text/html"
  {
  }

  /** The getter as its signature promises: the value stored under the name asked for. */
  function ResponseHeader(r: Response, name: string): (t: Result<string, ResponseError>)
    ensures t.Success? <==> name in r.headers
    ensures t.Success? ==> t.value == r.headers[name]
  {
    if name in r.headers then Success(r.headers[name]) else Failure(MissingContentType)
  }

  /** Setting a header and reading it back gives the value set, and other names are untouched. */
  lemma ResponseHeaderReads(r: Response, name: string, value: string, other: string)
    ensures ResponseHeader(SetResponseHeader(r, name, value), name) == Success(value)
    ensures other != name ==> ResponseHeader(SetResponseHeader(r, name, value), other) == ResponseHeader(r, other)
  {
  }

  /** response::commit: allowed once. */
  function Commit(r: Response): (r': Result<Response, ResponseError>)
    ensures r'.Failure? <==> r.committed
    ensures r'.Success? ==> r'.value == r.(committed := true)
  {
    if r.committed then Failure(AlreadyCommitted) else Success(r.(committed := true))
  }

  /** response::write: appends to the content of a response not yet committed. */
  function Write(r: Response, data: string): (r': Result<Response, ResponseError>)
    ensures r'.Failure? <==> r.committed
    ensures r'.Success? ==> r'.value == r.(content := r.content + data)
  {
    if r.committed then Failure(AlreadyCommitted) else Success(r.(content := r.content + data))
  }

  /** `operator<<`: appends without looking at the commit flag. */
  function Append(r: Response, text: string): (r': Response)
    ensures r'.content == r.content + text && r'.committed == r.committed
  {
    r.(content := r.content + text)
  }

  /** response::error, with or without a message (the message is not used): sets the status and commits. */
  function Error(r: Response, sc: Status, message: string): (r': Result<Response, ResponseError>)
    ensures r'.Failure? <==> r.committed
    ensures r'.Success? ==> r'.value == r.(status := sc, committed := true)
  {
    if r.committed then Failure(AlreadyCommitted) else Commit(r.(status := sc))
  }

  /** response::redirect: 301, a Location header, committed. */
  function Redirect(r: Response, location: string): (r': Result<Response, ResponseError>)
    ensures r'.Failure? <==> r.committed
    ensures r'.Success? ==> r'.value.committed && r'.value.status == MovedPermanently
    ensures r'.Success? ==> ResponseHeader(r'.value, "Location") == Success(location)
    ensures r'.Success? ==> r'.value.content == r.content
  {
    if r.committed then Failure(AlreadyCommitted)
    else Commit(SetResponseHeader(r.(status := MovedPermanently), "Location", location))
  }

  /** What a handler function may do to its response. */
  datatype Action =
    | DoCommit
    | DoWrite(data: string)
    | DoAppend(text: string)
    | DoError(code: Status, message: string)
    | DoRedirect(location: string)

  function Perform(r: Response, a: Action): Result<Response, ResponseError> {
    match a
    case DoCommit => Commit(r)
    case DoWrite(data) => Write(r, data)
    case DoAppend(text) => Success(Append(r, text))
    case DoError(code, message) => Error(r, code, message)
    case DoRedirect(location) => Redirect(r, location)
  }

  /** A handler's actions in order; the first exception ends the handler. */
  function PerformAll(r: Response, acts: seq<Action>): Result<Response, ResponseError>
    decreases |acts|
  {
    if |acts| == 0 then Success(r)
    else
      var next :- Perform(r, acts[0]);
      PerformAll(next, acts[1..])
  }

  predicate Commits(a: Action) {
    a.DoCommit? || a.DoError? || a.DoRedirect?
  }

  function CommitCount(acts: seq<Action>): (n: nat)
    ensures n <= |acts|
    decreases |acts|
  {
    if |acts| == 0 then 0 else (if Commits(acts[0]) then 1 else 0) + CommitCount(acts[1..])
  }

  /** The text one action writes or streams. */
  function WrittenBy(a: Action): string {
    match a
    case DoWrite(data) => data
    case DoAppend(text) => text
    case _ => ""
  }

  /** The text written or streamed by the actions, in order. */
  function Written(acts: seq<Action>): string
    decreases |acts|
  {
    if |acts| == 0 then "" else WrittenBy(acts[0]) + Written(acts[1..])
  }

  /** One action that does not throw: it commits only an uncommitted response, and appends what it writes. */
  lemma PerformFacts(r: Response, a: Action)
    requires Perform(r, a).Success?
    ensures Commits(a) ==> !r.committed
    ensures Perform(r, a).value.committed <==> r.committed || Commits(a)
    ensures Perform(r, a).value.content == r.content + WrittenBy(a)
  {
  }

  /**
   * A handler that runs to the end without an exception commits at most
   * once (and not at all if the response came committed); the response
   * ends committed exactly when it was or some action committed it, and
   * its content is what was there followed by everything written.
   */
  lemma {:induction false} AtMostOneCommit(r: Response, acts: seq<Action>)
    requires PerformAll(r, acts).Success?
    ensures CommitCount(acts) + (if r.committed then 1 else 0) <= 1
    ensures PerformAll(r, acts).value.committed <==> r.committed || CommitCount(acts) > 0
    ensures PerformAll(r, acts).value.content == r.content + Written(acts)
    decreases |acts|
  {
    if |acts| == 0 {
      assert r.content + "" == r.content;
    } else {
      var next := Perform(r, acts[0]).value;
      assert PerformAll(r, acts) == PerformAll(next, acts[1..]);
      PerformFacts(r, acts[0]);
      AtMostOneCommit(next, acts[1..]);
      assert r.content + WrittenBy(acts[0]) + Written(acts[1..]) == r.content + Written(acts);
    }
  }
}
