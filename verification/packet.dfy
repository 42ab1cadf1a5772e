/**
 * pyzor::packet: the "name: value" lines of a Pyzor UDP message, held in
 * a std::map ordered by name.
 */
module Packet {
  import opened Wrappers
  import opened Bytes

  datatype Packet = Packet(attributes: map<string, string>)

  // ------------------------------------------------------------ lines

  predicate IsBreak(c: char) { c == '\r' || c == '\n' }

  predicate LineText(l: string) {
    |l| > 0 && forall j :: 0 <= j < |l| ==> !IsBreak(l[j])
  }

  /**
   * boost::char_separator("\r\n"): the maximal runs without CR or LF, in
   * order, with the empty runs dropped.
   */
  function Lines(s: string): (ls: seq<string>)
    ensures forall i :: 0 <= i < |ls| ==> LineText(ls[i])
    decreases |s|
  {
    if |s| == 0 then []
    else
      var e := Scan(s, 0, IsBreak);
      var rest := if e < |s| then Lines(s[e + 1..]) else [];
      if e == 0 then rest else [s[..e]] + rest
  }

  /** A line followed by a line feed is one token, and the tokens of the rest follow. */
  lemma LinesCons(l: string, rest: string)
    requires LineText(l)
    ensures Lines(l + "\n" + rest) == [l] + Lines(rest)
  {
    var s := l + "\n" + rest;
    assert forall j :: 0 <= j < |l| ==> s[j] == l[j];
    ScanIs(s, 0, IsBreak, |l|);
    assert s[..|l|] == l && s[|l| + 1..] == rest;
  }

  // ------------------------------------------------------------ line patterns

  predicate NotSpace(c: char) { !IsSpace(c) }

  /** The text after the leading whitespace, as a greedy \s+ leaves it. */
  function TrimLeft(s: string): (t: string)
    ensures |t| <= |s| && t == s[|s| - |t|..]
    ensures |t| == 0 || !IsSpace(t[0])
    ensures forall j :: 0 <= j < |s| - |t| ==> IsSpace(s[j])
  {
    s[Scan(s, 0, NotSpace)..]
  }

  /** A name of k characters ends here: no whitespace in it, then ':' and whitespace. */
  predicate SplitsAt(line: string, k: int) {
    1 <= k && k + 1 < |line|
    && (forall j :: 0 <= j < k ==> !IsSpace(line[j]))
    && line[k] == ':' && IsSpace(line[k + 1])
  }

  /**
   * "^(\S+?):\s+(.*)$": the lazy name is the shortest one that lets the
   * rest match (see MatchLineLeast); the value is what follows the
   * whitespace after ':'.
   */
  function MatchLine(line: string): (r: Option<(string, string)>)
    ensures r.Some? ==>
      var k := |r.value.0|;
      SplitsAt(line, k) && r.value.0 == line[..k] && r.value.1 == TrimLeft(line[k + 1..])
  {
    var k :- NameEnd(line, 1);
    Some((line[..k], TrimLeft(line[k + 1..])))
  }

  /** The first split point at or after k, trying k, k + 1, ... while the name stays free of whitespace. */
  function NameEnd(line: string, k: nat): (r: Option<nat>)
    requires 1 <= k <= |line| + 1
    requires forall j :: 0 <= j < k - 1 ==> !IsSpace(line[j])
    ensures r.Some? ==> k <= r.value && SplitsAt(line, r.value)
    decreases |line| - k
  {
    if k > |line| || IsSpace(line[k - 1]) then None
    else if k + 1 < |line| && line[k] == ':' && IsSpace(line[k + 1]) then Some(k)
    else NameEnd(line, k + 1)
  }

  /** The scan from k finds the first split point at or after k. */
  lemma {:induction false} NameEndLeast(line: string, k: nat, k': nat)
    requires 1 <= k <= k' && k <= |line| + 1
    requires forall j :: 0 <= j < k - 1 ==> !IsSpace(line[j])
    requires SplitsAt(line, k')
    ensures NameEnd(line, k).Some? && NameEnd(line, k).value <= k'
    decreases k' - k
  {
    if k < k' {
      assert !IsSpace(line[k - 1]);
      if !(k + 1 < |line| && line[k] == ':' && IsSpace(line[k + 1])) {
        NameEndLeast(line, k + 1, k');
      }
    }
  }

  /** A line matches exactly when it has a split point, and the name stops at the first one. */
  lemma MatchLineLeast(line: string, k: nat)
    requires SplitsAt(line, k)
    ensures MatchLine(line).Some? && |MatchLine(line).value.0| <= k
  {
    NameEndLeast(line, 1, k);
  }

  /** \w in the "C" locale. */
  predicate IsWord(c: char) {
    'a' <= c <= 'z' || 'A' <= c <= 'Z' || '0' <= c <= '9' || c == '_'
  }

  predicate NotWord(c: char) { !IsWord(c) }

  /** "^(\w+):\s+(.*)$": the name is the whole run of word characters at the start. */
  function MatchWordLine(line: string): (r: Option<(string, string)>)
    ensures r.Some? ==>
      var k := |r.value.0|;
      SplitsAt(line, k) && r.value.0 == line[..k] && r.value.1 == TrimLeft(line[k + 1..])
      && forall j :: 0 <= j < k ==> IsWord(line[j])
  {
    var k := Scan(line, 0, NotWord);
    if 1 <= k && k + 1 < |line| && line[k] == ':' && IsSpace(line[k + 1]) then
      assert forall j :: 0 <= j < k ==> !IsSpace(line[j]);
      Some((line[..k], TrimLeft(line[k + 1..])))
    else None
  }

  /** Where the word pattern matches, the general pattern matches the same way. */
  lemma WordMatchAgrees(line: string)
    requires MatchWordLine(line).Some?
    ensures MatchLine(line) == MatchWordLine(line)
  {
    var k := |MatchWordLine(line).value.0|;
    MatchLineLeast(line, k);
    var n := |MatchLine(line).value.0|;
    assert IsWord(line[n]) ==> n == k;
  }

  /** A name with a character outside \w, such as the '-' of Op-Digest, defeats the word pattern. */
  lemma WordLineStopsAt(line: string, i: nat)
    requires i < |line| && line[i] != ':' && !IsWord(line[i])
    requires forall j :: 0 <= j < i ==> IsWord(line[j])
    ensures MatchWordLine(line) == None
  {
    ScanIs(line, 0, NotWord, i);
  }

  /** The general pattern keeps an Op-Digest line that the word pattern drops. */
  lemma OpDigestLineIgnoredByWordPattern(v: string)
    requires GoodValue(v)
    ensures MatchLine(Line("Op-Digest", v)) == Some(("Op-Digest", v))
    ensures MatchWordLine(Line("Op-Digest", v)) == None
  {
    var line := Line("Op-Digest", v);
    assert line[2] == '-';
    WordLineStopsAt(line, 2);
    MatchOfLine("Op-Digest", v);
  }

  // ------------------------------------------------------------ attributes

  /** The names the pattern finds in the lines. */
  function NamesOf(lines: seq<string>, pattern: string -> Option<(string, string)>): set<string>
    decreases |lines|
  {
    if |lines| == 0 then {}
    else
      var m := pattern(lines[0]);
      (if m.Some? then {m.value.0} else {}) + NamesOf(lines[1..], pattern)
  }

  /** Each matching line stores its value under its name, a later line overwriting an earlier one. */
  function Absorb(attrs: map<string, string>, lines: seq<string>, pattern: string -> Option<(string, string)>)
    : (r: map<string, string>)
    ensures r.Keys == attrs.Keys + NamesOf(lines, pattern)
    ensures forall k :: k in attrs && k !in NamesOf(lines, pattern) ==> r[k] == attrs[k]
    decreases |lines|
  {
    if |lines| == 0 then attrs
    else
      var m := pattern(lines[0]);
      var next := if m.Some? then attrs[m.value.0 := m.value.1] else attrs;
      Absorb(next, lines[1..], pattern)
  }

  lemma {:induction false} AbsorbSnoc(attrs: map<string, string>, lines: seq<string>, l: string,
                                        pattern: string -> Option<(string, string)>)
    ensures Absorb(attrs, lines + [l], pattern) ==
      var before := Absorb(attrs, lines, pattern);
      if pattern(l).Some? then before[pattern(l).value.0 := pattern(l).value.1] else before
    decreases |lines|
  {
    if |lines| > 0 {
      var m := pattern(lines[0]);
      var next := if m.Some? then attrs[m.value.0 := m.value.1] else attrs;
      assert (lines + [l])[1..] == lines[1..] + [l];
      AbsorbSnoc(next, lines[1..], l, pattern);
    } else {
      assert ([] + [l])[1..] == [];
    }
  }

  /** Later duplicate names overwrite earlier ones: the last line naming k decides its value. */
  lemma LaterLineWins(attrs: map<string, string>, lines: seq<string>, l: string, k: string, v: string,
                      pattern: string -> Option<(string, string)>)
    requires pattern(l) == Some((k, v))
    ensures k in Absorb(attrs, lines + [l], pattern) && Absorb(attrs, lines + [l], pattern)[k] == v
  {
    AbsorbSnoc(attrs, lines, l, pattern);
  }

  // ------------------------------------------------------------ validation

  const DIGEST_OPS: set<string> := {"check", "report", "whitelist"}

  predicate IsDigest(d: string) {
    |d| == 40 && forall i :: 0 <= i < |d| ==> IsHexDigit(d[i])
  }

  /**
   * The acceptance rule: PV, Op, Time and Thread present, and a check,
   * report or whitelist Op carries a 40-hex-digit Op-Digest.
   */
  predicate Valid(attrs: map<string, string>) {
    "PV" in attrs && "Op" in attrs && "Time" in attrs && "Thread" in attrs
    && (attrs["Op"] in DIGEST_OPS ==> "Op-Digest" in attrs && IsDigest(attrs["Op-Digest"]))
  }

  /** The index of the first character that is not a hex digit, or the length. */
  function FirstNonHex(d: string, i: nat): (j: nat)
    requires i <= |d|
    ensures i <= j <= |d|
    ensures forall x :: i <= x < j ==> IsHexDigit(d[x])
    ensures j < |d| ==> !IsHexDigit(d[j])
    decreases |d| - i
  {
    if i == |d| || !IsHexDigit(d[i]) then i else FirstNonHex(d, i + 1)
  }

  datatype Parsed = Parsed(valid: bool, packet: Packet)

  /** The checks of packet::parse, in its order: required names, then the digest of a digest-carrying Op. */
  function Check(attrs: map<string, string>): (ok: bool)
    ensures ok <==> Valid(attrs)
  {
    if !("PV" in attrs && "Op" in attrs && "Time" in attrs && "Thread" in attrs) then false
    else if attrs["Op"] == "check" || attrs["Op"] == "report" || attrs["Op"] == "whitelist" then
      if "Op-Digest" !in attrs then false
      else
        var digest := attrs["Op-Digest"];
        if |digest| != 40 then false
        else FirstNonHex(digest, 0) == |digest|
    else true
  }

  /**
   * packet::parse into an existing packet: every matching line is stored
   * first, then the checks run, so a packet that fails them keeps what
   * was read.
   */
  function Parse(p: Packet, buffer: string): (r: Parsed)
    ensures r.valid <==> Valid(r.packet.attributes)
    ensures r.packet.attributes.Keys == p.attributes.Keys + NamesOf(Lines(buffer), MatchLine)
    ensures forall k :: k in p.attributes && k !in NamesOf(Lines(buffer), MatchLine) ==>
      r.packet.attributes[k] == p.attributes[k]
  {
    var attrs := Absorb(p.attributes, Lines(buffer), MatchLine);
    Parsed(Check(attrs), Packet(attrs))
  }

  /** The buffer constructor: only \w names are kept, and nothing is checked. */
  function FromBuffer(buffer: string): (p: Packet)
    ensures p.attributes.Keys == NamesOf(Lines(buffer), MatchWordLine)
  {
    Packet(Absorb(map[], Lines(buffer), MatchWordLine))
  }

  // ------------------------------------------------------------ access

  predicate Has(p: Packet, name: string) { name in p.attributes }

  /** packet::get through std::map::operator[]: a missing name is inserted with an empty value. */
  function Get(p: Packet, name: string): (r: (string, Packet))
    ensures Has(r.1, name) && r.1.attributes[name] == r.0
    ensures Has(p, name) ==> r.1 == p
    ensures !Has(p, name) ==> r.0 == "" && r.1.attributes.Keys == p.attributes.Keys + {name}
    ensures forall k :: k in p.attributes ==> k in r.1.attributes && r.1.attributes[k] == p.attributes[k]
  {
    if name in p.attributes then (p.attributes[name], p)
    else ("", Packet(p.attributes[name := ""]))
  }

  function Set(p: Packet, name: string, value: string): (q: Packet)
    ensures Has(q, name) && Get(q, name).0 == value
    ensures forall k :: k != name ==> (Has(q, k) <==> Has(p, k))
    ensures forall k :: k != name && Has(p, k) ==> k in q.attributes && q.attributes[k] == p.attributes[k]
  {
    Packet(p.attributes[name := value])
  }

  function Remove(p: Packet, name: string): (q: Packet)
    ensures !Has(q, name)
    ensures !Has(p, name) ==> q == p
    ensures forall k :: k != name ==> (Has(q, k) <==> Has(p, k))
    ensures forall k :: k != name && Has(p, k) ==> k in q.attributes && q.attributes[k] == p.attributes[k]
  {
    if name in p.attributes then Packet(p.attributes - {name}) else p
  }

  /** Setting and then removing a name that was absent gives the packet back. */
  lemma SetRemove(p: Packet, name: string, value: string)
    requires !Has(p, name)
    ensures Remove(Set(p, name, value), name) == p
  {
    assert Remove(Set(p, name, value), name).attributes == p.attributes;
  }

  // ------------------------------------------------------------ archive

  /** std::string's operator<: character by character, a proper prefix first. */
  predicate StrLess(a: string, b: string)
    decreases |a|
  {
    if |a| == 0 then |b| > 0
    else if |b| == 0 then false
    else if a[0] != b[0] then a[0] < b[0]
    else StrLess(a[1..], b[1..])
  }

  lemma {:induction false} StrLessIrreflexive(a: string)
    ensures !StrLess(a, a)
    decreases |a|
  {
    if |a| > 0 {
      StrLessIrreflexive(a[1..]);
    }
  }

  lemma {:induction false} StrLessTrichotomy(a: string, b: string)
    ensures StrLess(a, b) || a == b || StrLess(b, a)
    decreases |a|
  {
    if |a| > 0 && |b| > 0 && a[0] == b[0] {
      StrLessTrichotomy(a[1..], b[1..]);
      if a[1..] == b[1..] {
        assert a == [a[0]] + a[1..] && b == [b[0]] + b[1..];
      }
    }
  }

  lemma {:induction false} StrLessTransitive(a: string, b: string, c: string)
    ensures StrLess(a, b) && StrLess(b, c) ==> StrLess(a, c)
    decreases |a|
  {
    if |a| > 0 && |b| > 0 && |c| > 0 && a[0] == b[0] && b[0] == c[0] {
      StrLessTransitive(a[1..], b[1..], c[1..]);
    }
  }

  predicate Least(m: string, s: set<string>) {
    m in s && forall x :: x in s ==> !StrLess(x, m)
  }

  lemma {:induction false} LeastExists(s: set<string>)
    requires s != {}
    ensures exists m :: Least(m, s)
    decreases |s|
  {
    var y :| y in s;
    StrLessIrreflexive(y);
    if s == {y} {
      assert Least(y, s);
    } else {
      var rest := s - {y};
      LeastExists(rest);
      var m :| Least(m, rest);
      if StrLess(y, m) {
        forall x | x in s ensures !StrLess(x, y) {
          StrLessTransitive(x, y, m);
        }
        assert Least(y, s);
      } else {
        assert Least(m, s);
      }
    }
  }

  lemma LeastUnique(s: set<string>, a: string, b: string)
    requires Least(a, s) && Least(b, s)
    ensures a == b
  {
    StrLessTrichotomy(a, b);
  }

  /** The names of a std::map in iteration order: ascending, each once. */
  function SortedKeys(s: set<string>): (ks: seq<string>)
    ensures forall k :: k in s <==> k in ks
    ensures forall i, j :: 0 <= i < j < |ks| ==> StrLess(ks[i], ks[j])
    decreases |s|
  {
    if s == {} then []
    else
      LeastExists(s);
      assert forall a, b | Least(a, s) && Least(b, s) :: a == b by {
        forall a, b | Least(a, s) && Least(b, s) ensures a == b {
          LeastUnique(s, a, b);
        }
      }
      var m :| Least(m, s);
      var rest := SortedKeys(s - {m});
      assert forall x :: x in s - {m} ==> StrLess(m, x) by {
        forall x | x in s - {m} ensures StrLess(m, x) {
          StrLessTrichotomy(m, x);
        }
      }
      [m] + rest
  }

  /** One archived line. */
  function Line(name: string, value: string): string {
    name + ": " + value
  }

  function Render(ks: seq<string>, attrs: map<string, string>): string
    requires forall i :: 0 <= i < |ks| ==> ks[i] in attrs
    decreases |ks|
  {
    if |ks| == 0 then "" else Line(ks[0], attrs[ks[0]]) + "\n" + Render(ks[1..], attrs)
  }

  /** The archive text: every attribute as "name: value\n", in ascending name order. */
  function ArchiveText(p: Packet): string {
    Render(SortedKeys(p.attributes.Keys), p.attributes)
  }

  /**
   * packet::archive: strncpy of the text into a buffer of bufferSize
   * characters (stopping at a NUL, padding with NULs, no terminator when the
   * text is too long), returning the full text length either way.
   */
  function Archive(p: Packet, bufferSize: nat): (r: (seq<char>, nat))
    ensures r.1 == |ArchiveText(p)|
    ensures |r.0| == bufferSize
    ensures var text := ArchiveText(p);
      var n := Scan(text, 0, IsNul);
      forall i :: 0 <= i < bufferSize ==> r.0[i] == if i < n then text[i] else '\0'
  {
    var text := ArchiveText(p);
    var n := Scan(text, 0, IsNul);
    (seq(bufferSize, i requires 0 <= i < bufferSize => if i < n then text[i] else '\0'), |text|)
  }

  predicate IsNul(c: char) { c == '\0' }

  // ------------------------------------------------------------ round trip

  predicate GoodName(n: string) {
    |n| > 0 && forall j :: 0 <= j < |n| ==> !IsSpace(n[j])
  }

  predicate GoodValue(v: string) {
    (forall j :: 0 <= j < |v| ==> !IsBreak(v[j])) && (|v| == 0 || !IsSpace(v[0]))
  }

  /** Attributes an archive can carry: names without whitespace, values on one line and not starting with whitespace. */
  predicate WellFormed(attrs: map<string, string>) {
    forall k :: k in attrs ==> GoodName(k) && GoodValue(attrs[k])
  }

  lemma MatchOfLine(n: string, v: string)
    requires GoodName(n) && GoodValue(v)
    ensures MatchLine(Line(n, v)) == Some((n, v))
    ensures LineText(Line(n, v))
  {
    var line := Line(n, v);
    LineShape(n, v);
    LineNameEnd(n, v);
    TrimOneSpace(v);
    LineBreakFree(n, v);
  }

  /** Where the name, the separator and the value sit in a line. */
  lemma LineShape(n: string, v: string)
    ensures var line := Line(n, v); var k := |n|;
      |line| == k + 2 + |v| && line[..k] == n && line[k] == ':' && line[k + 1] == ' ' && line[k + 1..] == " " + v
      && (forall j :: 0 <= j < k ==> line[j] == n[j])
      && (forall j :: k + 2 <= j < |line| ==> line[j] == v[j - (k + 2)])
  {
  }

  lemma LineNameEnd(n: string, v: string)
    requires GoodName(n)
    ensures NameEnd(Line(n, v), 1) == Some(|n|)
  {
    var line := Line(n, v);
    var k := |n|;
    LineShape(n, v);
    assert SplitsAt(line, k);
    NameEndLeast(line, 1, k);
    assert forall j :: 0 <= j <= k ==> !IsSpace(line[j]);
  }

  lemma TrimOneSpace(v: string)
    requires GoodValue(v)
    ensures TrimLeft(" " + v) == v
  {
    assert (" " + v)[1..] == v;
    ScanIs(" " + v, 0, NotSpace, 1);
  }

  lemma LineBreakFree(n: string, v: string)
    requires GoodName(n) && GoodValue(v)
    ensures LineText(Line(n, v))
  {
    var line := Line(n, v);
    var k := |n|;
    LineShape(n, v);
    forall j | 0 <= j < |line| ensures !IsBreak(line[j]) {
      if j < k {
        assert !IsSpace(n[j]);
      }
    }
  }

  /** The archived line of each name, in the order given. */
  function ArchivedLines(ks: seq<string>, attrs: map<string, string>): (ls: seq<string>)
    requires forall i :: 0 <= i < |ks| ==> ks[i] in attrs
    ensures |ls| == |ks|
    ensures forall i :: 0 <= i < |ks| ==> ls[i] == Line(ks[i], attrs[ks[i]])
    decreases |ks|
  {
    if |ks| == 0 then [] else [Line(ks[0], attrs[ks[0]])] + ArchivedLines(ks[1..], attrs)
  }

  /** The lines of a rendered archive are the archived lines, one per name. */
  lemma {:induction false} LinesOfRender(ks: seq<string>, attrs: map<string, string>)
    requires forall i :: 0 <= i < |ks| ==> ks[i] in attrs
    requires WellFormed(attrs)
    ensures Lines(Render(ks, attrs)) == ArchivedLines(ks, attrs)
    decreases |ks|
  {
    if |ks| > 0 {
      MatchOfLine(ks[0], attrs[ks[0]]);
      LinesCons(Line(ks[0], attrs[ks[0]]), Render(ks[1..], attrs));
      LinesOfRender(ks[1..], attrs);
    }
  }

  /** Absorbing archived lines with distinct names stores exactly those names' values. */
  lemma {:induction false} AbsorbLines(acc: map<string, string>, ks: seq<string>, attrs: map<string, string>)
    requires forall i :: 0 <= i < |ks| ==> ks[i] in attrs
    requires forall i, j :: 0 <= i < j < |ks| ==> ks[i] != ks[j]
    requires WellFormed(attrs)
    ensures var r := Absorb(acc, ArchivedLines(ks, attrs), MatchLine);
      forall k :: (k in r <==> k in acc || k in ks) && (k in r ==> r[k] == if k in ks then attrs[k] else acc[k])
    decreases |ks|
  {
    if |ks| > 0 {
      var k0 := ks[0];
      var acc' := acc[k0 := attrs[k0]];
      var ls := ArchivedLines(ks, attrs);
      MatchOfLine(k0, attrs[k0]);
      assert ls[0] == Line(k0, attrs[k0]) && ls[1..] == ArchivedLines(ks[1..], attrs);
      AbsorbLines(acc', ks[1..], attrs);
      StoresFirst(acc, ks, attrs, Absorb(acc', ArchivedLines(ks[1..], attrs), MatchLine));
    }
  }

  /** What absorbing the rest stores, together with the first name's value, is what absorbing all of them stores. */
  lemma StoresFirst(acc: map<string, string>, ks: seq<string>, attrs: map<string, string>, r: map<string, string>)
    requires |ks| > 0 && ks[0] !in ks[1..]
    requires forall i :: 0 <= i < |ks| ==> ks[i] in attrs
    requires var acc' := acc[ks[0] := attrs[ks[0]]];
      forall k :: (k in r <==> k in acc' || k in ks[1..]) && (k in r ==> r[k] == if k in ks[1..] then attrs[k] else acc'[k])
    ensures forall k :: (k in r <==> k in acc || k in ks) && (k in r ==> r[k] == if k in ks then attrs[k] else acc[k])
  {
    forall k
      ensures (k in r <==> k in acc || k in ks) && (k in r ==> r[k] == if k in ks then attrs[k] else acc[k])
    {
      assert k in ks <==> k == ks[0] || k in ks[1..];
    }
  }

  /** Parsing an archive into an empty packet gives the packet back, and validates it by the rule. */
  lemma ParseArchive(p: Packet)
    requires WellFormed(p.attributes)
    ensures Parse(Packet(map[]), ArchiveText(p)) == Parsed(Valid(p.attributes), p)
  {
    AbsorbArchive(p);
  }

  lemma AbsorbArchive(p: Packet)
    requires WellFormed(p.attributes)
    ensures Absorb(map[], Lines(ArchiveText(p)), MatchLine) == p.attributes
  {
    var ks := SortedKeys(p.attributes.Keys);
    SortedDistinct(ks);
    LinesOfRender(ks, p.attributes);
    AbsorbAll(ks, p.attributes);
  }

  lemma SortedDistinct(ks: seq<string>)
    requires forall i, j :: 0 <= i < j < |ks| ==> StrLess(ks[i], ks[j])
    ensures forall i, j :: 0 <= i < j < |ks| ==> ks[i] != ks[j]
  {
    forall i, j | 0 <= i < j < |ks| ensures ks[i] != ks[j] {
      StrLessIrreflexive(ks[i]);
    }
  }

  /** Absorbing one archived line per name, each name once, rebuilds the attributes. */
  lemma AbsorbAll(ks: seq<string>, attrs: map<string, string>)
    requires forall k :: k in attrs <==> k in ks
    requires forall i, j :: 0 <= i < j < |ks| ==> ks[i] != ks[j]
    requires WellFormed(attrs)
    ensures Absorb(map[], ArchivedLines(ks, attrs), MatchLine) == attrs
  {
    var r := Absorb(map[], ArchivedLines(ks, attrs), MatchLine);
    AbsorbLines(map[], ks, attrs);
    SameEntries(r, attrs);
  }

  lemma SameEntries(a: map<string, string>, b: map<string, string>)
    requires forall k :: (k in a <==> k in b) && (k in a ==> a[k] == b[k])
    ensures a == b
  {
    assert a.Keys == b.Keys;
  }

  /** The archive lists the names in ascending order. */
  lemma ArchiveAscending(p: Packet)
    requires WellFormed(p.attributes)
    ensures var ls := Lines(ArchiveText(p));
      |ls| == |p.attributes|
      && (forall i :: 0 <= i < |ls| ==> MatchLine(ls[i]).Some?)
      && forall i, j :: 0 <= i < j < |ls| ==>
        StrLess(MatchLine(ls[i]).value.0, MatchLine(ls[j]).value.0)
  {
    var ks := SortedKeys(p.attributes.Keys);
    var ls := Lines(ArchiveText(p));
    LinesOfRender(ks, p.attributes);
    assert |ls| == |ks|;
    forall i | 0 <= i < |ls| ensures MatchLine(ls[i]) == Some((ks[i], p.attributes[ks[i]])) {
      assert ls[i] == Line(ks[i], p.attributes[ks[i]]);
      MatchOfLine(ks[i], p.attributes[ks[i]]);
    }
    DistinctCount(ks, p.attributes.Keys);
  }

  lemma {:induction false} DistinctCount(ks: seq<string>, s: set<string>)
    requires forall k :: k in s <==> k in ks
    requires forall i, j :: 0 <= i < j < |ks| ==> StrLess(ks[i], ks[j])
    ensures |ks| == |s|
    decreases |ks|
  {
    if |ks| > 0 {
      StrLessIrreflexive(ks[0]);
      assert ks[0] !in ks[1..];
      DistinctCount(ks[1..], s - {ks[0]});
    }
  }
}
