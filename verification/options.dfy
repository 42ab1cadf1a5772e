/**
 * The command-line checks of pyzord-import and pyzord-export. Both take
 * `-d database-dir` and `-f file`, default to /var/lib/pyzor and pyzor.dump,
 * and refuse to run on an unknown option; the importer also refuses a
 * missing input file and the exporter an existing output file.
 */
module Options {
  import opened Wrappers

  const DEFAULT_HOME: string := "/var/lib/pyzor"
  const DEFAULT_FILE: string := "pyzor.dump"

  /**
   * One result of getopt with the option string "d:f:": an option letter
   * with its argument, or '?' for an unknown option or a missing argument.
   */
  datatype Flag = Given(letter: char, arg: string) | Unrecognised

  /** The database directory and the dump file. */
  datatype Settings = Settings(home: string, file: string)

  const DEFAULTS: Settings := Settings(DEFAULT_HOME, DEFAULT_FILE)

  /**
   * The getopt loop: each -d or -f overwrites its setting, so the last one
   * given wins; any other result prints the usage line and fails.
   */
  function Scan(flags: seq<Flag>, s: Settings): (r: Option<Settings>)
    ensures r.Some? <==> forall i :: 0 <= i < |flags| ==> flags[i].Given? && flags[i].letter in {'d', 'f'}
    decreases |flags|
  {
    if |flags| == 0 then Some(s)
    else match flags[0]
      case Unrecognised => None
      case Given(c, arg) =>
        assert forall i :: 1 <= i < |flags| ==> flags[i] == flags[1..][i - 1];
        if c == 'd' then Scan(flags[1..], s.(home := arg))
        else if c == 'f' then Scan(flags[1..], s.(file := arg))
        else None
  }

  /** The setting a letter chooses after the given flags: the last argument given for it, else the starting value. */
  function LastArg(flags: seq<Flag>, letter: char, otherwise: string): string
    decreases |flags|
  {
    if |flags| == 0 then otherwise
    else
      var last := flags[|flags| - 1];
      if last.Given? && last.letter == letter then last.arg else LastArg(flags[..|flags| - 1], letter, otherwise)
  }

  /** The loop keeps, for each setting, the argument of the last flag that names it. */
  lemma {:induction false} ScanKeepsLast(flags: seq<Flag>, s: Settings)
    requires Scan(flags, s).Some?
    ensures Scan(flags, s).value.home == LastArg(flags, 'd', s.home)
    ensures Scan(flags, s).value.file == LastArg(flags, 'f', s.file)
    decreases |flags|
  {
    if |flags| > 0 {
      var f := flags[0];
      var s' := if f.letter == 'd' then s.(home := f.arg) else s.(file := f.arg);
      ScanKeepsLast(flags[1..], s');
      LastArgFront(flags, 'd', s.home);
      LastArgFront(flags, 'f', s.file);
    }
  }

  /** Peeling the first flag off: it only matters when no later flag names the same letter. */
  lemma {:induction false} LastArgFront(flags: seq<Flag>, letter: char, otherwise: string)
    requires |flags| > 0
    ensures LastArg(flags, letter, otherwise) ==
      LastArg(flags[1..], letter,
        if flags[0].Given? && flags[0].letter == letter then flags[0].arg else otherwise)
    decreases |flags|
  {
    if |flags| > 1 {
      var init := flags[..|flags| - 1];
      assert init[1..] == flags[1..][..|flags[1..]| - 1];
      assert init[0] == flags[0];
      LastArgFront(init, letter, otherwise);
    }
  }

  /**
   * pyzord_import_options::parse: the flags must all be recognised and the
   * input file (from `present`, the files that exist) must be there.
   */
  function ImportOptions(flags: seq<Flag>, present: set<string>): (r: Option<Settings>)
    ensures r.Some? ==> r.value.file in present
    ensures r.Some? <==> Scan(flags, DEFAULTS).Some? && Scan(flags, DEFAULTS).value.file in present
  {
    match Scan(flags, DEFAULTS)
    case None => None
    case Some(s) => if s.file in present then Some(s) else None
  }

  /** pyzord_export_options::parse: the output file must not exist yet, so nothing is overwritten. */
  function ExportOptions(flags: seq<Flag>, present: set<string>): (r: Option<Settings>)
    ensures r.Some? ==> r.value.file !in present
    ensures r.Some? <==> Scan(flags, DEFAULTS).Some? && Scan(flags, DEFAULTS).value.file !in present
  {
    match Scan(flags, DEFAULTS)
    case None => None
    case Some(s) => if s.file in present then None else Some(s)
  }

  /** With no options both tools work on /var/lib/pyzor and pyzor.dump. */
  lemma DefaultsWithoutFlags(present: set<string>)
    ensures DEFAULT_FILE in present ==> ImportOptions([], present) == Some(Settings(DEFAULT_HOME, DEFAULT_FILE))
    ensures DEFAULT_FILE !in present ==> ExportOptions([], present) == Some(Settings(DEFAULT_HOME, DEFAULT_FILE))
  {
  }

  /** Whatever the flags, the two tools never both accept the same file list: one needs the file, the other its absence. */
  lemma ImportAndExportDisagree(flags: seq<Flag>, present: set<string>)
    ensures ImportOptions(flags, present).None? || ExportOptions(flags, present).None?
  {
  }
}
