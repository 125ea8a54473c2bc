/** The command-line converter (index.js): given a directory, every entry
    that is neither already an SVG nor hidden is scanned; a failed scan is
    reported, a target that already exists is reported as already converted,
    and otherwise the payload is written to the renamed sibling file.

    Loading the image and scanning it is one opaque step, `decode`, and the
    file system is seen through `listDir` and the existence test `onDisk`;
    the writes themselves are returned as outcomes. Names are relative to the
    directory being converted. */
module Converter {
  import opened Wrappers
  import opened Text
  import Rename

  /** What happens to one directory entry. */
  datatype Outcome =
    | Skipped
    | DecodeError(file: string)
    | AlreadyConverted(target: string)
    | Write(source: string, target: string, payload: string)

  /** A line the converter prints, on standard output or standard error. */
  datatype ConsoleLine = Out(text: string) | Err(text: string)

  /** Mark that starts every error line. */
  const ErrorMark: string := "\U{D7} "

  /** Mark that starts every success line. */
  const SuccessMark: string := "\U{2713} "

  /** Message printed, with exit status 1, when the directory is missing. */
  const UsageMessage: string := ErrorMark + "Please provide a directory path."

  /** Entries the loop passes over without reading them: names ending in
      `.svg` (case-sensitive) and hidden names. */
  predicate IsSkipped(file: string) {
    EndsWith(file, Rename.SvgExtension) || StartsWith(file, ".")
  }

  /** The decision the converter takes for one entry, given the scan result
      for it and which names exist in the directory. */
  function Decide(file: string, scan: Option<string>, onDisk: string -> bool): (o: Outcome)
    ensures o.Skipped? <==> IsSkipped(file)
    ensures o.DecodeError? <==> !IsSkipped(file) && scan.None?
    ensures o.DecodeError? ==> o.file == file
    ensures o.AlreadyConverted? <==>
              !IsSkipped(file) && scan.Some? && onDisk(Rename.CreateNewFilename(file))
    ensures o.AlreadyConverted? ==> o.target == Rename.CreateNewFilename(file)
    ensures o.Write? <==>
              !IsSkipped(file) && scan.Some? && !onDisk(Rename.CreateNewFilename(file))
    ensures o.Write? ==>
              o.source == file && o.target == Rename.CreateNewFilename(file)
              && scan == Some(o.payload)
  {
    if IsSkipped(file) then Skipped
    else
      match scan
      case None => DecodeError(file)
      case Some(payload) =>
        var newFile := Rename.CreateNewFilename(file);
        if onDisk(newFile) then AlreadyConverted(newFile)
        else Write(file, newFile, payload)
  }

  /** The converter never writes over its own input or over an existing
      file: for an entry that exists, every write targets a different name,
      one that does not exist yet and ends in `.svg`. */
  lemma WriteIsSafe(file: string, scan: Option<string>, onDisk: string -> bool)
    requires onDisk(file)
    ensures Decide(file, scan, onDisk).Write? ==>
              var t := Decide(file, scan, onDisk).target;
              t != file && !onDisk(t) && EndsWith(t, Rename.SvgExtension)
  {
    Rename.RenameEndsInSvg(file);
  }

  /** When the rename transform leaves an entry's name unchanged, the target
      is the entry itself, which exists: a decodable entry is reported as
      already converted and nothing is written. */
  lemma IdentityRenameNeverWrites(file: string, scan: Option<string>, onDisk: string -> bool)
    requires onDisk(file) && Rename.CreateNewFilename(file) == file
    ensures !Decide(file, scan, onDisk).Write?
    ensures !IsSkipped(file) && scan.Some? ==> Decide(file, scan, onDisk) == AlreadyConverted(file)
  {
  }

  /** Text before the file name on a decode-error line. */
  const DecodeErrorPrefix: string := ErrorMark + "Error reading: "

  /** Text before the target name on an already-converted line. */
  const AlreadyConvertedPrefix: string := ErrorMark + "Already converted: "

  /** Text between source and target on a success line. */
  const Arrow: string := " \U{2192} "

  /** The console line for an outcome: none for a skipped entry, an error
      line naming the entry for a failed scan, an error line naming the
      target when it exists, and a success line naming source and target for
      a write. The name reported on an error line is what follows its prefix. */
  function Report(o: Outcome): (line: Option<ConsoleLine>)
    ensures line.None? <==> o.Skipped?
    ensures line.Some? ==> (line.value.Out? <==> o.Write?)
    ensures line.Some? && line.value.Err? ==> StartsWith(line.value.text, ErrorMark)
    ensures line.Some? && line.value.Out? ==> StartsWith(line.value.text, SuccessMark)
    ensures o.DecodeError? ==>
              StartsWith(line.value.text, DecodeErrorPrefix)
              && line.value.text[|DecodeErrorPrefix|..] == o.file
    ensures o.AlreadyConverted? ==>
              StartsWith(line.value.text, AlreadyConvertedPrefix)
              && line.value.text[|AlreadyConvertedPrefix|..] == o.target
    ensures o.Write? ==>
              StartsWith(line.value.text, SuccessMark + o.source)
              && line.value.text[|SuccessMark + o.source|..] == Arrow + o.target
  {
    match o
    case Skipped => None
    case DecodeError(file) => Some(Err(DecodeErrorPrefix + file))
    case AlreadyConverted(target) => Some(Err(AlreadyConvertedPrefix + target))
    case Write(source, target, _) => Some(Out(SuccessMark + source + Arrow + target))
  }

  /** The two error lines can be told apart whatever names they carry. */
  lemma ErrorLinesDiffer(file: string, target: string)
    ensures Report(DecodeError(file)) != Report(AlreadyConverted(target))
  {
    var d := Report(DecodeError(file)).value.text;
    var c := Report(AlreadyConverted(target)).value.text;
    assert d[..|DecodeErrorPrefix|][2] == 'E';
    assert c[..|AlreadyConvertedPrefix|][2] == 'A';
  }

  /** The loop over a directory listing, every entry judged against the same
      view of the directory. */
  function ConvertAll(listing: seq<string>, decode: string -> Option<string>, onDisk: string -> bool): (outcomes: seq<Outcome>)
    ensures |outcomes| == |listing|
    ensures forall k :: 0 <= k < |listing| ==>
              outcomes[k] == Decide(listing[k], decode(listing[k]), onDisk)
  {
    if |listing| == 0 then []
    else [Decide(listing[0], decode(listing[0]), onDisk)] + ConvertAll(listing[1..], decode, onDisk)
  }

  /** Over a whole directory whose listed entries exist: every write comes
      from a listed entry, targets a `.svg` name that is not in the listing
      and differs from its source, and carries that entry's payload. */
  lemma DirectoryWritesAreSafe(listing: seq<string>, decode: string -> Option<string>, onDisk: string -> bool)
    requires forall k :: 0 <= k < |listing| ==> onDisk(listing[k])
    ensures var outcomes := ConvertAll(listing, decode, onDisk);
            forall k :: 0 <= k < |outcomes| && outcomes[k].Write? ==>
              outcomes[k].source == listing[k]
              && outcomes[k].target != listing[k]
              && outcomes[k].target !in listing
              && EndsWith(outcomes[k].target, Rename.SvgExtension)
              && decode(listing[k]) == Some(outcomes[k].payload)
  {
    var outcomes := ConvertAll(listing, decode, onDisk);
    forall k | 0 <= k < |outcomes| && outcomes[k].Write?
      ensures outcomes[k].target != listing[k]
      ensures outcomes[k].target !in listing
      ensures EndsWith(outcomes[k].target, Rename.SvgExtension)
    {
      WriteIsSafe(listing[k], decode(listing[k]), onDisk);
    }
  }

  /** How a run ends: a usage error before anything is listed, a failed
      listing (the rejected `readdir` ends the process with no entry
      processed), or the outcomes of the loop over the named directory. */
  datatype Run =
    | UsageError(exitCode: int, message: string)
    | ListingFailed(dir: string)
    | Converted(dir: string, outcomes: seq<Outcome>)

  /** The whole program: `process.argv[2]` is the directory; a missing or
      empty argument exits with status 1 before the directory is listed.
      `listDir` gives the directory's entries, or `None` when it cannot be
      read (missing, not a directory, no permission). */
  function RunConverter(argv: seq<string>, listDir: string -> Option<seq<string>>,
                        decode: string -> Option<string>, onDisk: string -> bool): (r: Run)
    ensures r.UsageError? <==> |argv| < 3 || argv[2] == ""
    ensures r.UsageError? ==> r.exitCode == 1 && r.message == UsageMessage && StartsWith(r.message, ErrorMark)
    ensures r.ListingFailed? <==> |argv| >= 3 && argv[2] != "" && listDir(argv[2]).None?
    ensures r.ListingFailed? ==> r.dir == argv[2]
    ensures r.Converted? ==>
              r.dir == argv[2]
              && listDir(argv[2]).Some?
              && |r.outcomes| == |listDir(argv[2]).value|
              && forall k :: 0 <= k < |r.outcomes| ==>
                   r.outcomes[k] == Decide(listDir(argv[2]).value[k], decode(listDir(argv[2]).value[k]), onDisk)
  {
    if |argv| < 3 || argv[2] == "" then UsageError(1, UsageMessage)
    else
      var dir := argv[2];
      match listDir(dir)
      case None => ListingFailed(dir)
      case Some(listing) => Converted(dir, ConvertAll(listing, decode, onDisk))
  }

  /** A visible name whose third-from-last character is not `s` is not
      skipped. */
  lemma NotSkipped(s: string)
    requires |s| >= 4 && s[0] != '.' && s[|s| - 3] != 's'
    ensures !IsSkipped(s)
  {
    assert s[|s| - 4..][1] != Rename.SvgExtension[1];
    assert s[..1][0] != '.';
  }

  /** The scanner of the examples below: only `code1.png` holds a code. */
  function ExampleScan(file: string): (scan: Option<string>) {
    if file == "code1.png" then Some("hello") else None
  }

  /** The directory before the first example run. */
  predicate BeforeFirstRun(name: string) {
    name == "code1.png" || name == "code2.jpg"
  }

  /** The directory after the first example run. */
  predicate AfterFirstRun(name: string) {
    name == "code1.png" || name == "code1.svg" || name == "code2.jpg"
  }

  /** A first run over `code1.png` (decodable, payload `hello`) and
      `code2.jpg` (not decodable) writes `code1.svg` and reports the other;
      a second run, with `code1.svg` now present, reports it as already
      converted and writes nothing. */
  lemma DirectoryExample()
    ensures ConvertAll(["code1.png", "code2.jpg"], ExampleScan, BeforeFirstRun)
            == [Write("code1.png", "code1.svg", "hello"), DecodeError("code2.jpg")]
    ensures ConvertAll(["code1.png", "code1.svg", "code2.jpg"], ExampleScan, AfterFirstRun)
            == [AlreadyConverted("code1.svg"), Skipped, DecodeError("code2.jpg")]
  {
    DirectoryExampleDecisions();
    var first := ConvertAll(["code1.png", "code2.jpg"], ExampleScan, BeforeFirstRun);
    assert first[0] == Write("code1.png", "code1.svg", "hello");
    assert first[1] == DecodeError("code2.jpg");
    var second := ConvertAll(["code1.png", "code1.svg", "code2.jpg"], ExampleScan, AfterFirstRun);
    assert second[0] == AlreadyConverted("code1.svg");
    assert second[1] == Skipped;
    assert second[2] == DecodeError("code2.jpg");
  }

  lemma DirectoryExampleDecisions()
    ensures Decide("code1.png", ExampleScan("code1.png"), BeforeFirstRun) == Write("code1.png", "code1.svg", "hello")
    ensures Decide("code2.jpg", ExampleScan("code2.jpg"), BeforeFirstRun) == DecodeError("code2.jpg")
    ensures Decide("code1.png", ExampleScan("code1.png"), AfterFirstRun) == AlreadyConverted("code1.svg")
    ensures Decide("code1.svg", ExampleScan("code1.svg"), AfterFirstRun) == Skipped
    ensures Decide("code2.jpg", ExampleScan("code2.jpg"), AfterFirstRun) == DecodeError("code2.jpg")
  {
    assert Rename.CreateNewFilename("code1.png") == "code1.svg" by {
      Rename.RenameAt("code1.png", 5);
      assert "code1.png"[..5] == "code1";
    }
    assert !BeforeFirstRun("code1.svg") && AfterFirstRun("code1.svg") by {
      assert "code1.svg"[6] != "code1.png"[6] && "code1.svg"[4] != "code2.jpg"[4];
    }
    NotSkipped("code1.png");
    NotSkipped("code2.jpg");
    assert IsSkipped("code1.svg") by {
      assert "code1.svg"[5..] == Rename.SvgExtension;
    }
    assert ExampleScan("code2.jpg") == None by {
      assert "code2.jpg"[4] != "code1.png"[4];
    }
  }

  /** A scanner that finds a code in every file. */
  function AlwaysScans(file: string): (scan: Option<string>) {
    Some("payload")
  }

  /** A directory holding `a.png` and `a.jpg`. */
  predicate TwoSources(name: string) {
    name == "a.png" || name == "a.jpg"
  }

  /** Against one view of the directory, `a.png` and `a.jpg` both decide to
      write `a.svg`: which write survives depends on timing the converter
      does not control. */
  lemma SharedTargetExample()
    ensures ConvertAll(["a.png", "a.jpg"], AlwaysScans, TwoSources)
            == [Write("a.png", "a.svg", "payload"), Write("a.jpg", "a.svg", "payload")]
  {
    SharedTargetDecisions();
    var outcomes := ConvertAll(["a.png", "a.jpg"], AlwaysScans, TwoSources);
    assert outcomes[0] == Write("a.png", "a.svg", "payload");
    assert outcomes[1] == Write("a.jpg", "a.svg", "payload");
  }

  lemma SharedTargetDecisions()
    ensures Decide("a.png", AlwaysScans("a.png"), TwoSources) == Write("a.png", "a.svg", "payload")
    ensures Decide("a.jpg", AlwaysScans("a.jpg"), TwoSources) == Write("a.jpg", "a.svg", "payload")
  {
    Rename.RenameSharedStem();
    assert !TwoSources("a.svg") by {
      assert "a.svg"[2] != "a.png"[2] && "a.svg"[2] != "a.jpg"[2];
    }
    NotSkipped("a.png");
    NotSkipped("a.jpg");
  }
}
