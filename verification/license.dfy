/**
 * The bohuno license key: a base64 text that decodes, through the fixed
 * ARCFOUR key, to "realname TAB username TAB password". The reading side
 * is license.cpp; the issuing side is the generate-license script, which
 * runs its own copy of RC4 (the same key schedule and keystream as
 * arcfour_filter, see Arcfour.WikipediaInitAgrees) and Python's standard
 * base64 encoder.
 */
module License {
  import opened Wrappers
  import opened Bytes
  import opened Base64
  import opened Arcfour

  /** The ARCFOUR key both sides hard-code. */
  const KEY_TEXT: string := "Work it, make it, do it, makes us harder, better, faster, STRONGER!"

  function Key(): (k: seq<byte>)
    ensures |k| == 67
  {
    ToBytes(KEY_TEXT)
  }

  const TAB: byte := 9

  // ------------------------------------------------------------ fields

  /**
   * boost::algorithm::split on is_any_of("\t") without token compression:
   * every tab ends a field, empty fields are kept, and the empty string is
   * one empty field.
   */
  function Split(s: seq<byte>): (fs: seq<seq<byte>>)
    ensures |fs| >= 1
    ensures forall i :: 0 <= i < |fs| ==> TAB !in fs[i]
    decreases |s|
  {
    if |s| == 0 then [[]]
    else
      var rest := Split(s[1..]);
      if s[0] == TAB then [[]] + rest
      else [[s[0]] + rest[0]] + rest[1..]
  }

  /** The fields joined with one tab between neighbours, as '\t'.join does. */
  function Join(fs: seq<seq<byte>>): (s: seq<byte>)
    requires |fs| >= 1
    decreases |fs|
  {
    if |fs| == 1 then fs[0] else fs[0] + [TAB] + Join(fs[1..])
  }

  /** Splitting loses nothing: the fields and the tabs between them are the input. */
  lemma {:induction false} JoinSplit(s: seq<byte>)
    ensures Join(Split(s)) == s
    decreases |s|
  {
    if |s| > 0 {
      var rest := Split(s[1..]);
      JoinSplit(s[1..]);
      if s[0] == TAB {
        assert Split(s) == [[]] + rest;
        assert ([[]] + rest)[1..] == rest;
        assert Join(Split(s)) == [] + [TAB] + Join(rest);
      } else {
        var fs := Split(s);
        assert fs == [[s[0]] + rest[0]] + rest[1..];
        if |rest| == 1 {
          assert Join(fs) == [s[0]] + rest[0];
        } else {
          assert fs[1..] == rest[1..];
          assert Join(rest) == rest[0] + [TAB] + Join(rest[1..]);
          assert Join(fs) == ([s[0]] + rest[0]) + [TAB] + Join(rest[1..]);
        }
      }
    }
  }

  /** Splitting a field that holds no tab, followed by a tab, starts a new field. */
  lemma {:induction false} SplitField(f: seq<byte>, t: seq<byte>)
    requires TAB !in f
    ensures Split(f + [TAB] + t) == [f] + Split(t)
    decreases |f|
  {
    if |f| == 0 {
      assert f + [TAB] + t == [TAB] + t;
      assert ([TAB] + t)[1..] == t;
    } else {
      var s := f + [TAB] + t;
      assert s[0] == f[0] && s[1..] == f[1..] + [TAB] + t;
      SplitField(f[1..], t);
      assert [f[0]] + f[1..] == f;
    }
  }

  /** A field without tabs splits to itself. */
  lemma {:induction false} SplitOne(f: seq<byte>)
    requires TAB !in f
    ensures Split(f) == [f]
    decreases |f|
  {
    if |f| > 0 {
      SplitOne(f[1..]);
      assert [f[0]] + f[1..] == f;
    }
  }

  /** Joining fields that hold no tab and splitting again gives the fields back. */
  lemma {:induction false} SplitJoin(fs: seq<seq<byte>>)
    requires |fs| >= 1
    requires forall i :: 0 <= i < |fs| ==> TAB !in fs[i]
    ensures Split(Join(fs)) == fs
    decreases |fs|
  {
    if |fs| == 1 {
      SplitOne(fs[0]);
    } else {
      SplitJoin(fs[1..]);
      SplitField(fs[0], Join(fs[1..]));
      assert [fs[0]] + fs[1..] == fs;
    }
  }

  // ------------------------------------------------------------ reading

  datatype License = License(realname: seq<byte>, username: seq<byte>, password: seq<byte>)

  datatype LicenseError =
    | FileMissing      // "Cannot load license; file does not exist"
    | CannotOpen       // "Cannot open license file for reading"
    | InvalidKey       // "Invalid license key; failed to parse"
    | NotAscii         // the base64 decoder's table lookup is undefined for a negative char

  /**
   * license::decode: the text is pulled through the streaming base64
   * decoder and then through an ARCFOUR filter keyed with KEY_TEXT; any
   * trailing partial group of the text is dropped by the decoder.
   */
  function Decode(text: string): (r: Result<seq<byte>, LicenseError>)
    ensures r.Success? <==> Ascii(text)
    ensures r.Success? ==> r.value == Crypt(Step, Schedule(Key()), StreamDecode(text)).out
  {
    if Ascii(text) then Success(Crypt(Step, Schedule(Key()), StreamDecode(text)).out)
    else Failure(NotAscii)
  }

  /** license::parse: exactly three tab-separated fields, in the order real name, user name, password. */
  function Parse(text: string): (r: Result<License, LicenseError>)
    ensures r.Success? <==> Decode(text).Success? && |Split(Decode(text).value)| == 3
    ensures r.Success? ==>
      var fs := Split(Decode(text).value);
      r.value == License(fs[0], fs[1], fs[2])
    ensures Decode(text).Success? && r.Failure? ==> r.error == InvalidKey
  {
    var decoded :- Decode(text);
    var fs := Split(decoded);
    if |fs| != 3 then Failure(InvalidKey)
    else Success(License(fs[0], fs[1], fs[2]))
  }

  /**
   * `file >> license`: skips leading whitespace and reads up to the next
   * whitespace; on a file with nothing but whitespace the target string is
   * left empty.
   */
  function FirstToken(content: string): (t: string)
    ensures forall i :: 0 <= i < |t| ==> !IsSpace(t[i])
    decreases |content|
  {
    if |content| == 0 then []
    else if IsSpace(content[0]) then FirstToken(content[1..])
    else TokenPrefix(content)
  }

  /** The longest prefix without whitespace. */
  function TokenPrefix(s: string): (t: string)
    ensures |t| <= |s| && t == s[..|t|]
    ensures forall i :: 0 <= i < |t| ==> !IsSpace(t[i])
    ensures |t| < |s| ==> IsSpace(s[|t|])
    decreases |s|
  {
    if |s| == 0 || IsSpace(s[0]) then [] else [s[0]] + TokenPrefix(s[1..])
  }

  /** A token surrounded by whitespace is read back exactly. */
  lemma {:induction false} FirstTokenOf(pre: string, t: string, post: string)
    requires forall i :: 0 <= i < |pre| ==> IsSpace(pre[i])
    requires forall i :: 0 <= i < |t| ==> !IsSpace(t[i])
    requires |post| == 0 || (|t| > 0 && IsSpace(post[0]))
    ensures FirstToken(pre + t + post) == t
    decreases |pre|
  {
    if |pre| > 0 {
      assert (pre + t + post)[1..] == pre[1..] + t + post;
      FirstTokenOf(pre[1..], t, post);
    } else {
      assert pre + t + post == t + post;
      if |t| > 0 {
        assert FirstToken(t + post) == TokenPrefix(t + post);
        TokenPrefixOf(t, post);
      }
    }
  }

  lemma {:induction false} TokenPrefixOf(t: string, post: string)
    requires forall i :: 0 <= i < |t| ==> !IsSpace(t[i])
    requires |post| == 0 || IsSpace(post[0])
    ensures TokenPrefix(t + post) == t
    decreases |t|
  {
    if |t| == 0 {
      assert t + post == post;
    } else {
      assert (t + post)[1..] == t[1..] + post;
      TokenPrefixOf(t[1..], post);
      assert [t[0]] + t[1..] == t;
    }
  }

  /** The path constructor: the file must exist and open; its first token is parsed. */
  function FromFile(fileExists: bool, canOpen: bool, content: string): (r: Result<License, LicenseError>)
    ensures !fileExists ==> r == Failure(FileMissing)
    ensures fileExists && !canOpen ==> r == Failure(CannotOpen)
    ensures fileExists && canOpen ==> r == Parse(FirstToken(content))
  {
    if !fileExists then Failure(FileMissing)
    else if !canOpen then Failure(CannotOpen)
    else Parse(FirstToken(content))
  }

  /** An empty or blank license file is an invalid key. */
  lemma BlankFileIsInvalid(content: string)
    requires forall i :: 0 <= i < |content| ==> IsSpace(content[i])
    ensures FromFile(true, true, content) == Failure(InvalidKey)
  {
    FirstTokenOf(content, [], []);
    assert content + [] + [] == content;
    assert Ascii([]);
    assert StreamDecode([]) == [];
    assert Crypt(Step, Schedule(Key()), []).out == [];
    assert Split([]) == [[]];
  }

  // ------------------------------------------------------------ issuing

  /**
   * The generate-license script: argv must hold the script name, the real
   * name and the user name (it exits otherwise); the password is the md5
   * hex digest of the clock and two random numbers, taken as a parameter.
   */
  function Generate(argv: seq<seq<byte>>, password: seq<byte>): (r: Option<string>)
    ensures r.Some? <==> |argv| == 3
    ensures r.Some? ==> Decode(r.value) == Success(Join([argv[1], argv[2], password]))
  {
    if |argv| != 3 then None
    else Some(Issue(Join([argv[1], argv[2], password])))
  }

  /** The license text of a plaintext, and what the reading side decodes it to. */
  function Issue(plain: seq<byte>): (license: string)
    ensures Decode(license) == Success(plain)
  {
    var secret := Crypt(Step, Schedule(Key()), plain).out;
    StreamDecodeEncode(secret);
    CryptInvolution(Step, Schedule(Key()), plain);
    Encode(secret)
  }

  /** A generated key parses back to the real name, user name and password, when none of them holds a tab. */
  lemma ParseGenerated(argv: seq<seq<byte>>, password: seq<byte>)
    requires |argv| == 3
    requires TAB !in argv[1] && TAB !in argv[2] && TAB !in password
    ensures Parse(Generate(argv, password).value) == Success(License(argv[1], argv[2], password))
  {
    assert Generate(argv, password).value == Issue(Join([argv[1], argv[2], password]));
    ThreeFieldsParse(argv[1], argv[2], password);
  }

  /** A tab inside the real name adds a field, so the key is refused. */
  lemma TabInRealNameIsRefused(argv: seq<seq<byte>>, password: seq<byte>, a: seq<byte>, b: seq<byte>)
    requires |argv| == 3 && argv[1] == a + [TAB] + b
    requires TAB !in a && TAB !in b && TAB !in argv[2] && TAB !in password
    ensures Parse(Generate(argv, password).value) == Failure(InvalidKey)
  {
    assert Generate(argv, password).value == Issue(Join([argv[1], argv[2], password]));
    JoinSplitsFirst(a, b, argv[2], password);
    FourFieldsRefused(a, b, argv[2], password);
  }

  lemma ThreeFieldsParse(x: seq<byte>, y: seq<byte>, z: seq<byte>)
    requires TAB !in x && TAB !in y && TAB !in z
    ensures Parse(Issue(Join([x, y, z]))) == Success(License(x, y, z))
  {
    SplitJoin([x, y, z]);
    ParseIssued(Join([x, y, z]));
  }

  lemma FourFieldsRefused(w: seq<byte>, x: seq<byte>, y: seq<byte>, z: seq<byte>)
    requires TAB !in w && TAB !in x && TAB !in y && TAB !in z
    ensures Parse(Issue(Join([w, x, y, z]))) == Failure(InvalidKey)
  {
    SplitJoin([w, x, y, z]);
    ParseIssued(Join([w, x, y, z]));
  }

  /** Parsing an issued key is parsing its plaintext's fields. */
  lemma ParseIssued(plain: seq<byte>)
    ensures var fs := Split(plain);
      Parse(Issue(plain)) == if |fs| == 3 then Success(License(fs[0], fs[1], fs[2])) else Failure(InvalidKey)
  {
    assert Decode(Issue(plain)) == Success(plain);
  }

  /** Joining a first field that holds a tab is joining its two halves as separate fields. */
  lemma JoinSplitsFirst(a: seq<byte>, b: seq<byte>, c: seq<byte>, d: seq<byte>)
    ensures Join([a + [TAB] + b, c, d]) == Join([a, b, c, d])
  {
    assert Join([c, d]) == c + [TAB] + d;
    assert Join([b, c, d]) == b + [TAB] + Join([c, d]);
    assert Join([a, b, c, d]) == a + [TAB] + Join([b, c, d]);
    assert Join([a + [TAB] + b, c, d]) == (a + [TAB] + b) + [TAB] + Join([c, d]);
  }
}
