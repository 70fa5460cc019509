/**
 * `parse_file`: the per-file pipeline.  The base name selects the kind, the
 * sampler may reject the file, the extractor of the kind produces the records,
 * and a non-empty result is saved under a name derived from the base name.
 * The file system is replaced by what the reads return: the file's bytes for
 * the sampler and its decoded lines for the extractor, `None` for a read that
 * fails.  Writing the JSON and printing the notices are left to the caller.
 */
module Driver {
  import opened Options
  import opened Strings
  import opened Sampler
  import opened Kinds
  import opened Records

  /** What happens to one file. */
  datatype Outcome =
    | SkippedNonText
    | NoData
    | Saved(outfile: string, records: seq<Record>)
    | Failed

  /** POSIX `os.path.basename`: everything after the last '/'. */
  function Basename(path: string): (name: string)
    ensures |name| <= |path| && path[|path| - |name|..] == name
    ensures '/' !in name
    ensures |name| < |path| ==> path[|path| - |name| - 1] == '/'
  {
    if path == [] || path[|path| - 1] == '/' then ""
    else
      var name := Basename(path[..|path| - 1]) + [path[|path| - 1]];
      assert path[|path| - |name|..] == path[..|path| - 1][|path| - |name|..] + [path[|path| - 1]];
      name
  }

  /** The name of the JSON file written for a base name: every '.' becomes '_' and ".json" is appended. */
  function OutputName(name: string): string
  {
    Replace(name, '.', '_') + ".json"
  }

  /** The output name keeps the base name's length and characters, except that
      each '.' is now '_', and ends in ".json"; its one '.' is the suffix's. */
  lemma OutputNameShape(name: string)
    ensures var out := OutputName(name);
            |out| == |name| + 5 && out[|name|..] == ".json"
            && (forall i :: 0 <= i < |name| ==> out[i] == if name[i] == '.' then '_' else name[i])
            && (forall i :: 0 <= i < |out| ==> (out[i] == '.' <==> i == |name|))
  {
    var out := OutputName(name);
    assert out[|name|..] == ".json";
    assert forall i :: |name| <= i < |out| ==> out[i] == ".json"[i - |name|];
  }

  /** The output name has exactly one '.'. */
  lemma OutputNameOneDot(name: string)
    ensures Count(OutputName(name), '.') == 1
  {
    var r := Replace(name, '.', '_');
    OutputNameShape(name);
    CountAbsent(r, '.');
    CountAppend(r, ".json", '.');
    assert ".json"[1..] == "json";
    CountAbsent("json", '.');
  }

  /** Base names that differ only in having '.' where the other has '_' share an
      output file, so the later one overwrites the earlier. */
  lemma OutputNameCollision(a: string, b: string)
    requires |a| == |b|
    requires forall i :: 0 <= i < |a| ==> a[i] == b[i] || (a[i] in "._" && b[i] in "._")
    ensures OutputName(a) == OutputName(b)
  {
    assert Replace(a, '.', '_') == Replace(b, '.', '_');
  }

  /** The records a text file yields: its kind's extractor, or the generic log
      when the name selects no kind. */
  function FileRecords(kind: Kind, lines: seq<string>): seq<Record>
  {
    if kind == GenericLog then ParseGenericLog(lines) else Extract(kind, CleanLines(lines))
  }

  /** However the file is classified, it yields at most one record per non-blank
      line, and blank lines can be removed without changing the result. */
  lemma FileRecordsPerLine(kind: Kind, a: seq<string>, blank: string, b: seq<string>)
    requires AllSpace(blank)
    ensures |FileRecords(kind, a + b)| <= |CleanLines(a + b)|
    ensures FileRecords(kind, a + [blank] + b) == FileRecords(kind, a + b)
  {
    BlankLineDropped(a, blank, b);
    ExtractAtMostOnePerLine(kind, CleanLines(a + b));
    if kind == GenericLog {
      var x := ParseGenericLog(a + [blank] + b);
      var y := ParseGenericLog(a + b);
      assert |x| == |y|;
      assert forall i :: 0 <= i < |x| ==> x[i] == y[i];
    }
  }

  /** `parse_file`: classify the base name, consult the sampler, extract, and
      save the records when there are any. */
  method ParseFile(path: string, bytes: Option<seq<byte>>, lines: Option<seq<string>>)
    returns (outcome: Outcome)
    ensures outcome == SkippedNonText <==> !IsTextFile(bytes)
    ensures outcome == Failed <==> IsTextFile(bytes) && lines.None?
    ensures outcome.Saved? <==>
            IsTextFile(bytes) && lines.Some? && FileRecords(Classify(Basename(path)), lines.value) != []
    ensures outcome.Saved? ==>
            outcome.outfile == OutputName(Basename(path))
            && outcome.records == FileRecords(Classify(Basename(path)), lines.value)
  {
    var name := Basename(path);
    var kind := Classify(name);
    if !IsTextFile(bytes) {
      return SkippedNonText;
    }
    var outfile := OutputName(name);
    if lines.None? {
      return Failed;
    }
    var data;
    if kind != GenericLog {
      data := ParseStructured(kind, lines.value);
    } else {
      data := ParseGenericLog(lines.value);
    }
    if data != [] {
      outcome := Saved(outfile, data);
    } else {
      outcome := NoData;
    }
  }
}
