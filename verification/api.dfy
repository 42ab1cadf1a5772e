/**
 * pyzord-api's request handler: the web interface on top of the embedded
 * HTTP server. A URI "/api?<query>" is answered with a small JSON-like
 * document; report, whitelist and delete hand an update to the database's
 * relay, get reads the store.
 */
module Api {
  import opened Wrappers
  import opened Bytes
  import opened Http
  import opened Hashes
  import Store
  import Records
  import Updates

  const PREFIX: string := "/api?"
  const API_VERSION: string := "2007-11-26"

  // ------------------------------------------------------------ query

  /** The characters of the query pattern's [A-Za-z0-9-] class. */
  predicate IsParamChar(c: char) {
    'A' <= c <= 'Z' || 'a' <= c <= 'z' || '0' <= c <= '9' || c == '-'
  }

  predicate ParamText(s: string) {
    |s| > 0 && forall i :: 0 <= i < |s| ==> IsParamChar(s[i])
  }

  /** The text between '&' separators, empty pieces included. */
  function Fields(s: string): (fs: seq<string>)
    ensures |fs| >= 1
    ensures forall i :: 0 <= i < |fs| ==> '&' !in fs[i]
    decreases |s|
  {
    if |s| == 0 then [""]
    else
      var rest := Fields(s[1..]);
      if s[0] == '&' then [""] + rest
      else [[s[0]] + rest[0]] + rest[1..]
  }

  function DropEmpty(fs: seq<string>): (ts: seq<string>)
    ensures forall i :: 0 <= i < |ts| ==> |ts[i]| > 0
    ensures (forall i :: 0 <= i < |fs| ==> '&' !in fs[i]) ==> forall i :: 0 <= i < |ts| ==> '&' !in ts[i]
    decreases |fs|
  {
    if |fs| == 0 then []
    else if |fs[0]| == 0 then DropEmpty(fs[1..])
    else [fs[0]] + DropEmpty(fs[1..])
  }

  /** boost::char_separator("&"): the non-empty pieces between ampersands. */
  function Tokens(q: string): (ts: seq<string>)
    ensures forall i :: 0 <= i < |ts| ==> |ts[i]| > 0 && '&' !in ts[i]
  {
    DropEmpty(Fields(q))
  }

  /** Tokens written one after another with one '&' between neighbours. */
  function JoinTokens(ts: seq<string>): string
    decreases |ts|
  {
    if |ts| == 0 then "" else if |ts| == 1 then ts[0] else ts[0] + "&" + JoinTokens(ts[1..])
  }

  lemma {:induction false} FieldsOfField(f: string, t: string)
    requires '&' !in f
    ensures Fields(f + "&" + t) == [f] + Fields(t)
    decreases |f|
  {
    if |f| == 0 {
      assert f + "&" + t == "&" + t;
      assert ("&" + t)[1..] == t;
    } else {
      var s := f + "&" + t;
      assert s[0] == f[0] && s[1..] == f[1..] + "&" + t;
      FieldsOfField(f[1..], t);
      assert [f[0]] + f[1..] == f;
    }
  }

  lemma {:induction false} FieldsOfOne(f: string)
    requires '&' !in f
    ensures Fields(f) == [f]
    decreases |f|
  {
    if |f| > 0 {
      FieldsOfOne(f[1..]);
      assert [f[0]] + f[1..] == f;
    }
  }

  /** Joining non-empty tokens without ampersands and tokenising again gives the tokens back. */
  lemma {:induction false} TokensOfJoin(ts: seq<string>)
    requires forall i :: 0 <= i < |ts| ==> |ts[i]| > 0 && '&' !in ts[i]
    ensures Tokens(JoinTokens(ts)) == ts
    decreases |ts|
  {
    if |ts| == 0 {
    } else if |ts| == 1 {
      FieldsOfOne(ts[0]);
      assert DropEmpty([ts[0]]) == [ts[0]] + DropEmpty([]);
    } else {
      TokensOfJoin(ts[1..]);
      FieldsOfField(ts[0], JoinTokens(ts[1..]));
      assert [ts[0]] + ts[1..] == ts;
    }
  }

  /** The index of the first '=', or the length when there is none. */
  function EqualsAt(t: string): (i: nat)
    ensures i <= |t|
    ensures i < |t| ==> t[i] == '='
    ensures forall j :: 0 <= j < i ==> t[j] != '='
    decreases |t|
  {
    if |t| == 0 then 0 else if t[0] == '=' then 0 else 1 + EqualsAt(t[1..])
  }

  /**
   * regex_match against ^([A-Za-z0-9-]+?)=([A-Za-z0-9-]+)$: the class has
   * no '=', so a token matches exactly when it is a non-empty name, one
   * '=', and a non-empty value, both made of class characters.
   */
  function SplitToken(t: string): (r: Option<(string, string)>)
    ensures r.Some? ==> ParamText(r.value.0) && ParamText(r.value.1) && t == r.value.0 + "=" + r.value.1
  {
    var i := EqualsAt(t);
    if i < |t| && ParamText(t[..i]) && ParamText(t[i + 1..]) then
      assert t == t[..i] + "=" + t[i + 1..];
      Some((t[..i], t[i + 1..]))
    else None
  }

  /** Every name=value of class characters matches, and splits at its '='. */
  lemma SplitTokenOf(k: string, v: string)
    requires ParamText(k) && ParamText(v)
    ensures SplitToken(k + "=" + v) == Some((k, v))
  {
    var t := k + "=" + v;
    assert forall j :: 0 <= j < |k| ==> t[j] == k[j] && t[j] != '=';
    assert t[|k|] == '=';
    assert t[..|k|] == k && t[|k| + 1..] == v;
  }

  /** parse_query's loop: each token sets its name; the first token that does not match fails the query. */
  function Collect(ts: seq<string>, m: map<string, string>): (r: Option<map<string, string>>)
    ensures r.Some? <==> forall i :: 0 <= i < |ts| ==> SplitToken(ts[i]).Some?
    ensures r.Some? ==> m.Keys <= r.value.Keys
    decreases |ts|
  {
    if |ts| == 0 then Some(m)
    else
      match SplitToken(ts[0])
      case None => None
      case Some(kv) => Collect(ts[1..], m[kv.0 := kv.1])
  }

  function ParseQuery(q: string): (r: Option<map<string, string>>)
    ensures r.Some? <==> forall i :: 0 <= i < |Tokens(q)| ==> SplitToken(Tokens(q)[i]).Some?
  {
    Collect(Tokens(q), map[])
  }

  /** The parameters a list of pairs sets, later pairs overwriting earlier ones. */
  function ToMap(m: map<string, string>, ps: seq<(string, string)>): map<string, string>
    decreases |ps|
  {
    if |ps| == 0 then m else ToMap(m[ps[0].0 := ps[0].1], ps[1..])
  }

  function QueryText(ps: seq<(string, string)>): (ts: seq<string>)
    ensures |ts| == |ps|
    ensures forall i :: 0 <= i < |ps| ==> ts[i] == ps[i].0 + "=" + ps[i].1
    decreases |ps|
  {
    if |ps| == 0 then [] else [ps[0].0 + "=" + ps[0].1] + QueryText(ps[1..])
  }

  predicate GoodPairs(ps: seq<(string, string)>) {
    forall i :: 0 <= i < |ps| ==> ParamText(ps[i].0) && ParamText(ps[i].1)
  }

  lemma {:induction false} CollectPairs(m: map<string, string>, ps: seq<(string, string)>)
    requires GoodPairs(ps)
    ensures Collect(QueryText(ps), m) == Some(ToMap(m, ps))
    decreases |ps|
  {
    if |ps| > 0 {
      SplitTokenOf(ps[0].0, ps[0].1);
      assert QueryText(ps)[1..] == QueryText(ps[1..]);
      CollectPairs(m[ps[0].0 := ps[0].1], ps[1..]);
    }
  }

  /** A query written from name=value pairs parses to those parameters, the last value of a name winning. */
  lemma ParseQueryOfPairs(ps: seq<(string, string)>)
    requires GoodPairs(ps)
    ensures ParseQuery(JoinTokens(QueryText(ps))) == Some(ToMap(map[], ps))
  {
    var ts := QueryText(ps);
    forall i | 0 <= i < |ts|
      ensures |ts[i]| > 0 && '&' !in ts[i]
    {
      assert ts[i] == ps[i].0 + "=" + ps[i].1;
      assert forall j :: 0 <= j < |ps[i].0| ==> ts[i][j] == ps[i].0[j];
      assert forall j :: 0 <= j < |ps[i].1| ==> ts[i][|ps[i].0| + 1 + j] == ps[i].1[j];
    }
    TokensOfJoin(ts);
    CollectPairs(map[], ps);
  }

  /** A token without '=' fails the whole query. */
  lemma TokenWithoutValueFails(q: string, i: nat)
    requires i < |Tokens(q)| && '=' !in Tokens(q)[i]
    ensures ParseQuery(q) == None
  {
    assert SplitToken(Tokens(q)[i]) == None;
  }

  // ------------------------------------------------------------ errors

  datatype ApiError = ApiError(code: string, message: string)

  const MISSING_ACTION := ApiError("MissingParameter", "The 'Action' parameter is required.")
  const MISSING_VERSION := ApiError("MissingParameter", "The 'Version' parameter is required.")
  const MISSING_HASH := ApiError("MissingParameter", "The 'Hash' parameter is required.")
  const NO_SUCH_VERSION :=
    ApiError("NoSuchVersion", "An incorrect version was specified. Current API version is 2007-11-26.")
  const INVALID_ACTION := ApiError("InvalidAction", "The action specified is invalid.")

  /** api_error::to_json: code and message are pasted in without escaping. */
  function ToJson(e: ApiError): string {
    "{ \"Code\": \"" + e.code + "\", \"Message\": \"" + e.message + "\" }"
  }

  /** A reader finds the code at column 11 and the message after the code's closing quote and 14 more characters. */
  lemma ToJsonFields(e: ApiError)
    ensures var j := ToJson(e);
      |j| == 29 + |e.code| + |e.message| &&
      j[11..11 + |e.code|] == e.code &&
      j[11 + |e.code| + 15..11 + |e.code| + 15 + |e.message|] == e.message
  {
    var j := ToJson(e);
    var a := "{ \"Code\": \"";
    var b := "\", \"Message\": \"";
    assert |a| == 11 && |b| == 15;
    assert j == a + e.code + b + e.message + "\" }";
    assert j[11..11 + |e.code|] == e.code;
  }

  /** One element of the "Errors" array, indented by four spaces. */
  function Item(e: ApiError): string {
    "    " + ToJson(e)
  }

  /** The items of the "Errors" array with ", \n" between neighbours, built as the loop appends them. */
  function ErrorItems(es: seq<ApiError>): string
    decreases |es|
  {
    if |es| == 0 then ""
    else if |es| == 1 then Item(es[0])
    else ErrorItems(es[..|es| - 1]) + ", \n" + Item(es[|es| - 1])
  }

  /** Read from the front: the first item, then the separator and the others. */
  lemma {:induction false} ErrorItemsFront(e: ApiError, es: seq<ApiError>)
    requires |es| > 0
    ensures ErrorItems([e] + es) == Item(e) + ", \n" + ErrorItems(es)
    decreases |es|
  {
    var all := [e] + es;
    var n := |es|;
    assert all[..|all| - 1] == [e] + es[..n - 1];
    assert all[|all| - 1] == es[n - 1];
    assert ErrorItems(all) == ErrorItems([e] + es[..n - 1]) + ", \n" + Item(es[n - 1]);
    if n == 1 {
      assert [e] + es[..n - 1] == [e];
      assert ErrorItems(es) == Item(es[0]);
    } else {
      ErrorItemsFront(e, es[..n - 1]);
      assert ErrorItems(es) == ErrorItems(es[..n - 1]) + ", \n" + Item(es[n - 1]);
      AppendAssoc(Item(e) + ", \n", ErrorItems(es[..n - 1]), ", \n" + Item(es[n - 1]));
    }
  }

  lemma AppendAssoc(a: string, b: string, c: string)
    ensures (a + b) + c == a + (b + c)
  {
  }

  function ErrorContent(es: seq<ApiError>): string {
    "{ \n" + "  \"Errors\": [\n" + ErrorItems(es) + "\n" + "  ]\n" + "}\n"
  }

  /** error_reply: status 200, the errors as text/plain, and their length. */
  function ErrorReply(es: seq<ApiError>): (r: Reply)
    ensures r.status == Some(Ok) && r.content == ErrorContent(es)
    ensures ContentLengthOk(r)
    ensures HeaderValue(r.headers, "Content-Type") == Success("text/plain")
  {
    Respond(Ok, "text/plain", ErrorContent(es))
  }

  const NIL_CONTENT: string := "{ \n" + "  \"Response\": nil\n" + "}\n"

  /** nil_reply: the empty answer of report, whitelist and delete. */
  function NilReply(): (r: Reply)
    ensures r.status == Some(Ok) && r.content == NIL_CONTENT
    ensures HeaderValue(r.headers, "Content-Length") == Success("23")
    ensures HeaderValue(r.headers, "Content-Type") == Success("text/plain")
  {
    assert |NIL_CONTENT| == 23;
    assert Decimal(23) == "23";
    Respond(Ok, "text/plain", NIL_CONTENT)
  }

  /**
   * The checks before dispatch, in the order they are made: each missing
   * parameter, then a version other than the current one.
   */
  function Validate(ps: map<string, string>): (es: seq<ApiError>)
    ensures |es| == 0 <==> "Action" in ps && "Version" in ps && "Hash" in ps && ps["Version"] == API_VERSION
    ensures |es| <= 3
    ensures "Action" !in ps ==> es[0] == MISSING_ACTION
    ensures "Action" in ps && "Version" !in ps ==> es[0] == MISSING_VERSION
    ensures "Version" in ps && ps["Version"] != API_VERSION ==> es[|es| - 1] == NO_SUCH_VERSION
    ensures forall i :: 0 <= i < |es| ==> es[i] in {MISSING_ACTION, MISSING_VERSION, MISSING_HASH, NO_SUCH_VERSION}
  {
    (if "Action" !in ps then [MISSING_ACTION] else [])
    + (if "Version" !in ps then [MISSING_VERSION] else [])
    + (if "Hash" !in ps then [MISSING_HASH] else [])
    + (if "Version" in ps && ps["Version"] != API_VERSION then [NO_SUCH_VERSION] else [])
  }

  // ------------------------------------------------------------ get

  /** One numeric member of the get response. */
  function Member(name: string, v: nat, last: bool): string {
    "    \"" + name + "\": " + Decimal(v) + (if last then "\n" else ",\n")
  }

  /**
   * The body handle_get writes: the hash as given, then the record's eight
   * numbers in the order entered, updated, the whitelist triple, the
   * report triple.
   */
  function GetContent(hash: string, r: Records.Record): string {
    "{ \n" + "  \"Response\": {\n" + "    \"Hash\": \"" + hash + "\",\n"
    + Member("RecordEntered", r.entered, false)
    + Member("RecordUpdated", r.updated, false)
    + Member("WhitelistCount", r.whitelistCount, false)
    + Member("WhitelistEntered", r.whitelistEntered, false)
    + Member("WhitelistUpdated", r.whitelistUpdated, false)
    + Member("ReportCount", r.reportCount, false)
    + Member("ReportEntered", r.reportEntered, false)
    + Member("ReportUpdated", r.reportUpdated, true)
    + "  }\n" + "}\n"
  }

  /**
   * handle_get as written: the body is appended to the connection's reply
   * and the two headers are set, but the status is never assigned, so it
   * keeps whatever the reply held.
   */
  function HandleGetAsWritten(rep: Reply, s: Store.Store, hash: string): (r: Reply)
    ensures r.status == rep.status
    ensures r.content == rep.content + GetContent(hash, Store.Get(s, hash).record)
    ensures ContentLengthOk(r)
  {
    var content := rep.content + GetContent(hash, Store.Get(s, hash).record);
    var hs := [Header("Content-Length", Decimal(|content|)), Header("Content-Type", "text/plain")];
    assert hs[0].name == "Content-Length";
    Reply(rep.status, hs, content)
  }

  /** The connection's reply is a fresh member whose status nothing has assigned. */
  const FreshReply: Reply := Reply(None, [], "")

  /** A get request leaves the reply's status unassigned. */
  lemma GetLeavesStatusUnassigned(s: Store.Store, hash: string)
    ensures HandleGetAsWritten(FreshReply, s, hash).status == None
  {
  }

  /** handle_get with the 200 status every other API reply carries. */
  function HandleGet(s: Store.Store, hash: string): (r: Reply)
    ensures r.status == Some(Ok)
    ensures r.content == GetContent(hash, Store.Get(s, hash).record)
    ensures ContentLengthOk(r)
    ensures HeaderValue(r.headers, "Content-Type") == Success("text/plain")
  {
    Respond(Ok, "text/plain", GetContent(hash, Store.Get(s, hash).record))
  }

  /** A hash that is not a signature, or a signature the store lacks, is answered with an all-zero record. */
  lemma GetUnknownHashIsZero(s: Store.Store, hash: string)
    requires DecodeSignature(hash).None? || DecodeSignature(hash).value !in s
    ensures HandleGet(s, hash).content == GetContent(hash, Records.Zero)
  {
  }

  // ------------------------------------------------------------ dispatch

  /** The database call a handler makes: erase, report or whitelist of the hash text. */
  datatype Call = Call(hash: string, kind: u32)

  datatype Handled =
    | Declined                               // handle_request returned false
    | Answered(reply: Reply, call: Option<Call>)

  predicate IsApiUri(uri: string) {
    |uri| >= |PREFIX| && uri[..|PREFIX|] == PREFIX
  }

  /** The update kind of the actions that call the database: Report, Whitelist and Delete. */
  function CallKind(action: string): (k: Option<u32>)
    ensures k.Some? <==> action == "Report" || action == "Whitelist" || action == "Delete"
    ensures k.Some? ==> |action| >= 6
  {
    if action == "Report" then Some(Updates.REPORT)
    else if action == "Whitelist" then Some(Updates.WHITELIST)
    else if action == "Delete" then Some(Updates.ERASE)
    else None
  }

  /**
   * The action's handler, once validation found nothing wrong. Get goes to
   * handle_get as written, so its reply leaves the status unassigned; every
   * other action answers 200.
   */
  function Dispatch(ps: map<string, string>, s: Store.Store): (h: Handled)
    requires "Action" in ps && "Hash" in ps
    ensures h.Answered?
    ensures h.reply.status.None? <==> ps["Action"] == "Get"
    ensures ps["Action"] != "Get" ==> h.reply.status == Some(Ok)
    ensures ps["Action"] == "Get" ==> h.reply.content == GetContent(ps["Hash"], Store.Get(s, ps["Hash"]).record)
    ensures ContentLengthOk(h.reply)
    ensures h.call.Some? <==> CallKind(ps["Action"]).Some?
    ensures h.call.Some? ==> h.call.value == Call(ps["Hash"], CallKind(ps["Action"]).value)
  {
    if ps["Action"] == "Get" then
      assert CallKind(ps["Action"]).None? by { assert |ps["Action"]| == 3; }
      DispatchGet(ps["Hash"], s)
    else DispatchUpdate(ps["Action"], ps["Hash"])
  }

  /** Get: handle_get as written on the connection's fresh reply, with no database call. */
  function DispatchGet(hash: string, s: Store.Store): (h: Handled)
    ensures h.Answered? && h.reply.status.None? && h.call.None?
    ensures h.reply.content == GetContent(hash, Store.Get(s, hash).record)
    ensures ContentLengthOk(h.reply)
  {
    var g := GetContent(hash, Store.Get(s, hash).record);
    EmptyPrefix(g);
    Answered(HandleGetAsWritten(FreshReply, s, hash), None)
  }

  lemma EmptyPrefix(g: string)
    ensures "" + g == g
  {
  }

  /** The actions other than Get: a database call for Report, Whitelist and Delete, an error otherwise. */
  function DispatchUpdate(action: string, hash: string): (h: Handled)
    ensures h.Answered? && h.reply.status == Some(Ok) && ContentLengthOk(h.reply)
    ensures h.call.Some? <==> CallKind(action).Some?
    ensures h.call.Some? ==> h.call.value == Call(hash, CallKind(action).value)
  {
    match CallKind(action)
    case Some(kind) => Answered(NilReply(), Some(Call(hash, kind)))
    case None => Answered(ErrorReply([INVALID_ACTION]), None)
  }

  /** api_request_handler::handle_request. */
  function Handle(uri: string, s: Store.Store): (h: Handled)
    ensures h.Declined? <==> !IsApiUri(uri)
    ensures IsApiUri(uri) && ParseQuery(uri[|PREFIX|..]).None? ==> h == Answered(StockReply(InternalServerError), None)
    ensures IsApiUri(uri) && ParseQuery(uri[|PREFIX|..]).Some? && |Validate(ParseQuery(uri[|PREFIX|..]).value)| > 0 ==>
      h == Answered(ErrorReply(Validate(ParseQuery(uri[|PREFIX|..]).value)), None)
  {
    if !IsApiUri(uri) then Declined
    else
      match ParseQuery(uri[|PREFIX|..])
      case None => Answered(StockReply(InternalServerError), None)
      case Some(ps) =>
        var errors := Validate(ps);
        if |errors| > 0 then Answered(ErrorReply(errors), None)
        else Dispatch(ps, s)
  }

  /**
   * The database is called exactly when the query parses, validates and
   * names Report, Whitelist or Delete, with that hash and the matching
   * update kind.
   */
  lemma HandleCalls(uri: string, s: Store.Store)
    ensures var h := Handle(uri, s);
      (h.Answered? && h.call.Some?) <==>
        (IsApiUri(uri) && ParseQuery(uri[|PREFIX|..]).Some? &&
         var ps := ParseQuery(uri[|PREFIX|..]).value;
         |Validate(ps)| == 0 && ps["Action"] in {"Report", "Whitelist", "Delete"})
    ensures var h := Handle(uri, s);
      h.Answered? && h.call.Some? ==>
        var ps := ParseQuery(uri[|PREFIX|..]).value;
        h.call.value.hash == ps["Hash"] &&
        h.call.value.kind == (if ps["Action"] == "Report" then Updates.REPORT
                              else if ps["Action"] == "Whitelist" then Updates.WHITELIST
                              else Updates.ERASE)
  {
  }

  /**
   * Every answer has a Content-Length equal to its size. An unparseable
   * query is answered 500, a valid Get leaves the status unassigned, and
   * every other answer has status 200.
   */
  lemma AnswersAreOk(uri: string, s: Store.Store)
    requires Handle(uri, s).Answered?
    ensures var r := Handle(uri, s).reply;
      ContentLengthOk(r)
    ensures ParseQuery(uri[|PREFIX|..]).None? <==> Handle(uri, s).reply.status == Some(InternalServerError)
    ensures Handle(uri, s).reply.status.None? <==>
      ParseQuery(uri[|PREFIX|..]).Some? && |Validate(ParseQuery(uri[|PREFIX|..]).value)| == 0
      && ParseQuery(uri[|PREFIX|..]).value["Action"] == "Get"
    ensures Handle(uri, s).reply.status.Some? ==>
      Handle(uri, s).reply.status == Some(Ok) || Handle(uri, s).reply.status == Some(InternalServerError)
  {
  }

  /** A query that names no parameter at all reports the three missing ones, in order. */
  lemma EmptyQueryMissesAll(s: Store.Store)
    ensures Handle("/api?", s) == Answered(ErrorReply([MISSING_ACTION, MISSING_VERSION, MISSING_HASH]), None)
  {
    assert "/api?"[|PREFIX|..] == "";
    assert Fields("") == [""];
    assert DropEmpty([""]) == [];
    assert ParseQuery("") == Some(map[]);
    assert Validate(map[]) == [MISSING_ACTION, MISSING_VERSION, MISSING_HASH];
  }
}
