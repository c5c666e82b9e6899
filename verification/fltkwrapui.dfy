/**
  The FLTK_WRAP_UI command: InitialPass turns every file of the named scan
  lists whose wrap-exclude flag is clear, whatever its extension, into a
  generated header record and a generated implementation record, and
  FinalPass declares one `fluid` rule per file and publishes every generated
  path under GENERATED_FLTK_FILES.
 */
module FltkWrapUi {
  import opened BuildState

  const WrapSwitch := "FLTK_WRAP_UI"
  const GeneratedKey := "GENERATED_FLTK_FILES"
  const FluidExe := "${FLTK_FLUID_EXE}"
  const HeaderExt := "h"
  const SourceExt := "cxx"

  /** The command object's members: the names taken from the arguments and
      three sequences that are meant to grow in lock-step. */
  datatype Command = Command(
    libraryName: string,
    headerList: string,
    sourceList: string,
    wrapUserInterface: seq<string>,
    wrapHeaders: seq<SourceRec>,
    wrapSources: seq<SourceRec>)

  /** A command object as it is before its first InitialPass. */
  const Fresh := Command("", "", "", [], [], [])

  datatype ErrorKind = ArgumentCount | WrapUndefined | WrapOff | BadSourceList

  datatype Status = Ok | Failed(error: ErrorKind)

  /** What InitialPass leaves behind: its verdict, the command's members and
      the makefile. On failure the last two may already have changed. */
  datatype Step = Step(status: Status, cmd: Command, mf: Makefile)

  /** The three recorded sequences have the same length, so every index below
      the header count is valid for all of them. */
  predicate LockStep(cmd: Command)
  {
    |cmd.wrapUserInterface| == |cmd.wrapHeaders| == |cmd.wrapSources|
  }

  /** Concatenation regroups freely; stated once for any element type so
      that proofs about sequences of strings need not unfold it. */
  lemma AppendAssoc<T>(a: seq<T>, b: seq<T>, c: seq<T>)
    ensures (a + b) + c == a + (b + c)
  {
  }

  // ---------------------------------------------------------------------
  // Per-file records
  // ---------------------------------------------------------------------

  /** Path of the original file, built from the current source directory. */
  function OrigName(cdir: string, f: SourceRec): string
  {
    cdir + "/" + f.name + "." + f.ext
  }

  /** The generated header record: same name, output directory, extension h,
      depending on the original file. */
  function HeaderFor(f: SourceRec, cdir: string, outdir: string): (r: SourceRec)
    ensures r.name == f.name && r.dir == outdir && r.ext == HeaderExt && !r.wrapExclude
    ensures r.depends == [OrigName(cdir, f)]
    ensures FullPath(r) == outdir + "/" + f.name + ".h"
  {
    SourceRec(f.name, outdir, HeaderExt, false, [OrigName(cdir, f)])
  }

  /** The generated implementation record: same name, output directory,
      extension cxx, depending on the header's full path and the original. */
  function SourceFor(f: SourceRec, cdir: string, outdir: string): (r: SourceRec)
    ensures r.name == f.name && r.dir == outdir && r.ext == SourceExt && !r.wrapExclude
    ensures r.depends == [FullPath(HeaderFor(f, cdir, outdir))] + HeaderFor(f, cdir, outdir).depends
    ensures FullPath(r) == outdir + "/" + f.name + ".cxx"
    ensures FullPath(r) != FullPath(HeaderFor(f, cdir, outdir))
  {
    SourceRec(f.name, outdir, SourceExt, false,
              [FullPath(HeaderFor(f, cdir, outdir)), OrigName(cdir, f)])
  }

  // ---------------------------------------------------------------------
  // Reference definitions of what InitialPass produces
  // ---------------------------------------------------------------------

  /** The files of a list whose wrap-exclude flag is clear, in list order. */
  function Eligible(files: seq<SourceRec>): (r: seq<SourceRec>)
    ensures |r| <= |files|
    ensures forall i :: 0 <= i < |r| ==> !r[i].wrapExclude
  {
    if files == [] then []
    else (if files[0].wrapExclude then [] else [files[0]]) + Eligible(files[1..])
  }

  /** True when every scan-list name is a known list. */
  predicate AllKnown(sources: map<string, seq<SourceRec>>, names: seq<string>)
  {
    forall i :: 0 <= i < |names| ==> names[i] in sources
  }

  /** The eligible files of the scan lists that come before the first unknown
      name, in scan-list order and then file order. */
  function Wrapped(sources: map<string, seq<SourceRec>>, names: seq<string>): seq<SourceRec>
  {
    if names == [] || names[0] !in sources then []
    else Eligible(sources[names[0]]) + Wrapped(sources, names[1..])
  }

  function OrigNames(cdir: string, fs: seq<SourceRec>): (r: seq<string>)
    ensures |r| == |fs|
  {
    if fs == [] then [] else [OrigName(cdir, fs[0])] + OrigNames(cdir, fs[1..])
  }

  function HeaderRecs(fs: seq<SourceRec>, cdir: string, outdir: string): (r: seq<SourceRec>)
    ensures |r| == |fs|
  {
    if fs == [] then [] else [HeaderFor(fs[0], cdir, outdir)] + HeaderRecs(fs[1..], cdir, outdir)
  }

  function SourceRecs(fs: seq<SourceRec>, cdir: string, outdir: string): (r: seq<SourceRec>)
    ensures |r| == |fs|
  {
    if fs == [] then [] else [SourceFor(fs[0], cdir, outdir)] + SourceRecs(fs[1..], cdir, outdir)
  }

  /** What wrapping the files `fs` appends to the list named `list` when the
      header list is `hl` and the implementation list is `sl`: per file, its
      header record if `list` is `hl`, then its implementation record if
      `list` is `sl`. */
  function Contribution(list: string, hl: string, sl: string, fs: seq<SourceRec>,
                        cdir: string, outdir: string): seq<SourceRec>
  {
    if fs == [] then []
    else FileContribution(list, hl, sl, fs[0], cdir, outdir)
         + Contribution(list, hl, sl, fs[1..], cdir, outdir)
  }

  /** What wrapping the single file `f` appends to the list named `list`. */
  function FileContribution(list: string, hl: string, sl: string, f: SourceRec,
                            cdir: string, outdir: string): seq<SourceRec>
  {
    (if list == hl then [HeaderFor(f, cdir, outdir)] else [])
    + (if list == sl then [SourceFor(f, cdir, outdir)] else [])
  }

  // ---------------------------------------------------------------------
  // InitialPass
  // ---------------------------------------------------------------------

  /** The body of the inner loop for one file of a scan list: an excluded
      file changes nothing; any other file adds one entry to each member
      sequence and one record to each of the two named lists. */
  function WrapFile(cmd: Command, mf: Makefile, f: SourceRec): (r: (Command, Makefile))
    ensures r.0.libraryName == cmd.libraryName
    ensures r.0.headerList == cmd.headerList && r.0.sourceList == cmd.sourceList
    ensures r.1.defs == mf.defs && r.1.commands == mf.commands
    ensures r.1.currentDir == mf.currentDir && r.1.outputDir == mf.outputDir
    ensures f.wrapExclude ==> r == (cmd, mf)
    ensures !f.wrapExclude ==>
      && r.0.wrapUserInterface == cmd.wrapUserInterface + [OrigName(mf.currentDir, f)]
      && r.0.wrapHeaders == cmd.wrapHeaders + [HeaderFor(f, mf.currentDir, mf.outputDir)]
      && r.0.wrapSources == cmd.wrapSources + [SourceFor(f, mf.currentDir, mf.outputDir)]
    ensures !f.wrapExclude ==> forall l ::
      Lookup(r.1.sources, l) == Lookup(mf.sources, l)
        + FileContribution(l, cmd.headerList, cmd.sourceList, f, mf.currentDir, mf.outputDir)
    ensures !f.wrapExclude ==> forall l ::
      l in r.1.sources <==> l in mf.sources || l == cmd.headerList || l == cmd.sourceList
  {
    if f.wrapExclude then (cmd, mf)
    else
      var orig := OrigName(mf.currentDir, f);
      var h := HeaderFor(f, mf.currentDir, mf.outputDir);
      var s := SourceFor(f, mf.currentDir, mf.outputDir);
      (cmd.(wrapUserInterface := cmd.wrapUserInterface + [orig],
            wrapHeaders := cmd.wrapHeaders + [h],
            wrapSources := cmd.wrapSources + [s]),
       AddSource(AddSource(mf, h, cmd.headerList), s, cmd.sourceList))
  }

  /** The inner loop over one scan list, file by file in list order. */
  function WrapFiles(cmd: Command, mf: Makefile, files: seq<SourceRec>): (r: (Command, Makefile))
    decreases |files|
    ensures r.0.libraryName == cmd.libraryName
    ensures r.0.headerList == cmd.headerList && r.0.sourceList == cmd.sourceList
    ensures r.1.defs == mf.defs && r.1.commands == mf.commands
    ensures r.1.currentDir == mf.currentDir && r.1.outputDir == mf.outputDir
  {
    if files == [] then (cmd, mf)
    else
      var w := WrapFile(cmd, mf, files[0]);
      WrapFiles(w.0, w.1, files[1..])
  }

  /** The inner loop against its reference, for the member sequences: each
      eligible file, in order, extends each of them by one entry. */
  lemma {:induction false} WrapFilesOrigs(cmd: Command, mf: Makefile, files: seq<SourceRec>)
    decreases |files|
    ensures WrapFiles(cmd, mf, files).0.wrapUserInterface
      == cmd.wrapUserInterface + OrigNames(mf.currentDir, Eligible(files))
  {
    if files != [] {
      var f := files[0];
      var rest := files[1..];
      var w := WrapFile(cmd, mf, f);
      WrapFilesOrigs(w.0, w.1, rest);
      assert WrapFiles(cmd, mf, files) == WrapFiles(w.0, w.1, rest);
      assert w.1.currentDir == mf.currentDir && w.1.outputDir == mf.outputDir;
      if !f.wrapExclude {
        assert Eligible(files) == [f] + Eligible(rest);
        assert ([f] + Eligible(rest))[1..] == Eligible(rest);
        assert w.0.wrapUserInterface == cmd.wrapUserInterface + [OrigName(mf.currentDir, f)];
      } else {
        assert Eligible(files) == Eligible(rest);
      }
    }
  }

  lemma {:induction false} WrapFilesHeaders(cmd: Command, mf: Makefile, files: seq<SourceRec>)
    decreases |files|
    ensures WrapFiles(cmd, mf, files).0.wrapHeaders
      == cmd.wrapHeaders + HeaderRecs(Eligible(files), mf.currentDir, mf.outputDir)
  {
    if files != [] {
      var f := files[0];
      var rest := files[1..];
      var w := WrapFile(cmd, mf, f);
      WrapFilesHeaders(w.0, w.1, rest);
      assert WrapFiles(cmd, mf, files) == WrapFiles(w.0, w.1, rest);
      assert w.1.currentDir == mf.currentDir && w.1.outputDir == mf.outputDir;
      if !f.wrapExclude {
        assert Eligible(files) == [f] + Eligible(rest);
        assert ([f] + Eligible(rest))[1..] == Eligible(rest);
        assert w.0.wrapHeaders == cmd.wrapHeaders + [HeaderFor(f, mf.currentDir, mf.outputDir)];
      } else {
        assert Eligible(files) == Eligible(rest);
      }
    }
  }

  lemma {:induction false} WrapFilesSources(cmd: Command, mf: Makefile, files: seq<SourceRec>)
    decreases |files|
    ensures WrapFiles(cmd, mf, files).0.wrapSources
      == cmd.wrapSources + SourceRecs(Eligible(files), mf.currentDir, mf.outputDir)
  {
    if files != [] {
      var f := files[0];
      var rest := files[1..];
      var w := WrapFile(cmd, mf, f);
      WrapFilesSources(w.0, w.1, rest);
      assert WrapFiles(cmd, mf, files) == WrapFiles(w.0, w.1, rest);
      assert w.1.currentDir == mf.currentDir && w.1.outputDir == mf.outputDir;
      if !f.wrapExclude {
        assert Eligible(files) == [f] + Eligible(rest);
        assert ([f] + Eligible(rest))[1..] == Eligible(rest);
        assert w.0.wrapSources == cmd.wrapSources + [SourceFor(f, mf.currentDir, mf.outputDir)];
      } else {
        assert Eligible(files) == Eligible(rest);
      }
    }
  }

  /** The inner loop against its reference, for one named list: it ends
      with the records the eligible files contribute to it, which are none
      for a list other than the header and implementation lists. */
  lemma {:induction false} WrapFilesList(cmd: Command, mf: Makefile, files: seq<SourceRec>, l: string)
    decreases |files|
    ensures Lookup(WrapFiles(cmd, mf, files).1.sources, l) == Lookup(mf.sources, l)
      + Contribution(l, cmd.headerList, cmd.sourceList, Eligible(files), mf.currentDir, mf.outputDir)
  {
    if files != [] {
      var f := files[0];
      var rest := files[1..];
      var w := WrapFile(cmd, mf, f);
      WrapFilesList(w.0, w.1, rest, l);
      assert WrapFiles(cmd, mf, files) == WrapFiles(w.0, w.1, rest);
      assert w.1.currentDir == mf.currentDir && w.1.outputDir == mf.outputDir;
      if !f.wrapExclude {
        var e := Eligible(rest);
        assert Eligible(files) == [f] + e;
        assert ([f] + e)[1..] == e;
        var mine := FileContribution(l, cmd.headerList, cmd.sourceList, f, mf.currentDir, mf.outputDir);
        assert Lookup(w.1.sources, l) == Lookup(mf.sources, l) + mine;
        assert Contribution(l, cmd.headerList, cmd.sourceList, [f] + e, mf.currentDir, mf.outputDir)
            == mine + Contribution(l, cmd.headerList, cmd.sourceList, e, mf.currentDir, mf.outputDir);
        AppendAssoc(Lookup(mf.sources, l), mine,
                    Contribution(l, cmd.headerList, cmd.sourceList, e, mf.currentDir, mf.outputDir));
      } else {
        assert Eligible(files) == Eligible(rest);
      }
    }
  }

  /** A list comes into existence only when something is appended to it. */
  lemma {:induction false} WrapFilesKeys(cmd: Command, mf: Makefile, files: seq<SourceRec>, l: string)
    decreases |files|
    ensures l in WrapFiles(cmd, mf, files).1.sources <==>
      l in mf.sources || (Eligible(files) != [] && (l == cmd.headerList || l == cmd.sourceList))
  {
    if files != [] {
      var f := files[0];
      var rest := files[1..];
      var w := WrapFile(cmd, mf, f);
      WrapFilesKeys(w.0, w.1, rest, l);
      assert WrapFiles(cmd, mf, files) == WrapFiles(w.0, w.1, rest);
      if !f.wrapExclude {
        assert Eligible(files) == [f] + Eligible(rest);
        assert l in w.1.sources <==> l in mf.sources || l == cmd.headerList || l == cmd.sourceList;
      } else {
        assert Eligible(files) == Eligible(rest);
      }
    }
  }

  /** The outer loop over the scan-list names; an unknown name stops it with
      BadSourceList and keeps what the earlier lists already appended. */
  function ScanLists(cmd: Command, mf: Makefile, names: seq<string>): (r: Step)
    requires cmd.headerList !in names && cmd.sourceList !in names
    decreases |names|
    ensures r.cmd.libraryName == cmd.libraryName
    ensures r.cmd.headerList == cmd.headerList && r.cmd.sourceList == cmd.sourceList
    ensures LockStep(cmd) ==> LockStep(r.cmd)
    ensures r.mf.defs == mf.defs && r.mf.commands == mf.commands
    ensures r.mf.currentDir == mf.currentDir && r.mf.outputDir == mf.outputDir
    ensures r.status.Failed? ==> r.status.error == BadSourceList
  {
    if names == [] then Step(Ok, cmd, mf)
    else if names[0] !in mf.sources then Step(Failed(BadSourceList), cmd, mf)
    else
      var w := WrapFiles(cmd, mf, mf.sources[names[0]]);
      WrapFilesOrigs(cmd, mf, mf.sources[names[0]]);
      WrapFilesHeaders(cmd, mf, mf.sources[names[0]]);
      WrapFilesSources(cmd, mf, mf.sources[names[0]]);
      ScanLists(w.0, w.1, names[1..])
  }

  /** InitialPass: the argument-count gate, the FLTK_WRAP_UI gate (undefined,
      or off by `isOff`), then the scan. It never touches definitions or
      rules, and it keeps the member sequences in lock-step. */
  function InitialPass(cmd: Command, mf: Makefile, args: seq<string>,
                       isOff: string -> bool): (r: Step)
    requires |args| >= 4 && WrapSwitch in mf.defs && !isOff(mf.defs[WrapSwitch])
             ==> args[1] !in args[3..] && args[2] !in args[3..]
    ensures |args| < 4 ==> r == Step(Failed(ArgumentCount), cmd, mf)
    ensures |args| >= 4 && WrapSwitch !in mf.defs ==> r == Step(Failed(WrapUndefined), cmd, mf)
    ensures |args| >= 4 && WrapSwitch in mf.defs && isOff(mf.defs[WrapSwitch])
            ==> r == Step(Failed(WrapOff), cmd, mf)
    ensures r.status.Failed? && r.status.error == BadSourceList ==> !AllKnown(mf.sources, args[3..])
    ensures r.status == Ok ==>
      && |args| >= 4 && WrapSwitch in mf.defs && !isOff(mf.defs[WrapSwitch])
      && r.cmd.libraryName == args[0] && r.cmd.headerList == args[1] && r.cmd.sourceList == args[2]
    ensures r.mf.defs == mf.defs && r.mf.commands == mf.commands
    ensures r.mf.currentDir == mf.currentDir && r.mf.outputDir == mf.outputDir
    ensures LockStep(cmd) ==> LockStep(r.cmd)
  {
    if |args| < 4 then Step(Failed(ArgumentCount), cmd, mf)
    else
      match GetDefinition(mf, WrapSwitch)
      case None => Step(Failed(WrapUndefined), cmd, mf)
      case Some(v) =>
        if isOff(v) then Step(Failed(WrapOff), cmd, mf)
        else
          ScanListsKnown(cmd.(libraryName := args[0], headerList := args[1], sourceList := args[2]),
                         mf, args[3..]);
          ScanLists(cmd.(libraryName := args[0], headerList := args[1], sourceList := args[2]),
                    mf, args[3..])
  }

  /** ScanLists reports BadSourceList only when some scan-list name is unknown
      and succeeds only when all of them are known. */
  lemma {:induction false} ScanListsKnown(cmd: Command, mf: Makefile, names: seq<string>)
    requires cmd.headerList !in names && cmd.sourceList !in names
    ensures ScanLists(cmd, mf, names).status == Ok <==> AllKnown(mf.sources, names)
    decreases |names|
  {
    if names != [] && names[0] in mf.sources {
      var w := WrapFiles(cmd, mf, mf.sources[names[0]]);
      forall l { WrapFilesKeys(cmd, mf, mf.sources[names[0]], l); }
      ScanListsKnown(w.0, w.1, names[1..]);
      AllKnownTail(mf.sources, names);
      AllKnownFrame(w.1.sources, mf.sources, names[1..]);
    }
  }

  lemma AllKnownTail(sources: map<string, seq<SourceRec>>, names: seq<string>)
    requires names != [] && names[0] in sources
    ensures AllKnown(sources, names) <==> AllKnown(sources, names[1..])
  {
    if AllKnown(sources, names[1..]) {
      forall i | 0 <= i < |names| ensures names[i] in sources {
        if i > 0 { assert names[i] == names[1..][i - 1]; }
      }
    }
  }

  /** Two source maps that agree on which names exist agree on AllKnown. */
  lemma AllKnownFrame(s1: map<string, seq<SourceRec>>, s2: map<string, seq<SourceRec>>,
                      names: seq<string>)
    requires forall i :: 0 <= i < |names| ==> (names[i] in s1 <==> names[i] in s2)
    ensures AllKnown(s1, names) <==> AllKnown(s2, names)
  {
  }

  // ---------------------------------------------------------------------
  // FinalPass
  // ---------------------------------------------------------------------

  /** hres of the k-th entry: output directory, header name and extension. */
  function HeaderPath(cmd: Command, outdir: string, k: nat): string
    requires k < |cmd.wrapHeaders|
  {
    outdir + "/" + cmd.wrapHeaders[k].name + "." + cmd.wrapHeaders[k].ext
  }

  /** cxxres of the k-th entry: output directory, source name and extension. */
  function SourcePath(cmd: Command, outdir: string, k: nat): string
    requires LockStep(cmd) && k < |cmd.wrapHeaders|
  {
    outdir + "/" + cmd.wrapSources[k].name + "." + cmd.wrapSources[k].ext
  }

  /** The header paths of the first k entries, in order. */
  function HeaderPaths(cmd: Command, outdir: string, k: nat): (r: seq<string>)
    requires k <= |cmd.wrapHeaders|
    ensures |r| == k
  {
    if k == 0 then [] else HeaderPaths(cmd, outdir, k - 1) + [HeaderPath(cmd, outdir, k - 1)]
  }

  /** The rule declared for entry k: `fluid -h hres -o cxxres ui`, producing
      cxxres for the library, depending on the fluid executable and on the
      header paths of entries 0..k. */
  function Rule(cmd: Command, outdir: string, k: nat): (r: CustomCommand)
    requires LockStep(cmd) && k < |cmd.wrapHeaders|
    ensures r.source == cmd.wrapUserInterface[k] && r.command == FluidExe
    ensures r.args == ["-h", HeaderPath(cmd, outdir, k), "-o", r.output, r.source]
    ensures r.output == SourcePath(cmd, outdir, k) && r.target == cmd.libraryName
    ensures |r.depends| == k + 2 && r.depends[0] == FluidExe
    ensures r.depends[k + 1] == HeaderPath(cmd, outdir, k)
  {
    var ui := cmd.wrapUserInterface[k];
    var hres := HeaderPath(cmd, outdir, k);
    var cxxres := SourcePath(cmd, outdir, k);
    CustomCommand(ui, FluidExe, ["-h", hres, "-o", cxxres, ui],
                  [FluidExe] + HeaderPaths(cmd, outdir, k + 1), cxxres, cmd.libraryName)
  }

  /** The rules of the first k entries, in order. */
  function Rules(cmd: Command, outdir: string, k: nat): (r: seq<CustomCommand>)
    requires LockStep(cmd) && k <= |cmd.wrapHeaders|
    ensures |r| == k
  {
    if k == 0 then [] else Rules(cmd, outdir, k - 1) + [Rule(cmd, outdir, k - 1)]
  }

  /** The text the first k entries append to GENERATED_FLTK_FILES: a space,
      the header path, a space and the implementation path, per entry. */
  function GeneratedSuffix(cmd: Command, outdir: string, k: nat): string
    requires LockStep(cmd) && k <= |cmd.wrapHeaders|
  {
    if k == 0 then ""
    else GeneratedSuffix(cmd, outdir, k - 1)
         + " " + HeaderPath(cmd, outdir, k - 1) + " " + SourcePath(cmd, outdir, k - 1)
  }

  /** Prior value of GENERATED_FLTK_FILES, or empty when it is undefined. */
  function PriorGenerated(defs: map<string, string>): string
  {
    if GeneratedKey in defs then defs[GeneratedKey] else ""
  }

  /** The seed FinalPass starts from agrees with what GetDefinition reports
      for GENERATED_FLTK_FILES, empty when it is undefined, and after the
      final write it reads back exactly the value written. */
  lemma PriorGeneratedReads(mf: Makefile, v: string)
    ensures GetDefinition(mf, GeneratedKey).Some? ==> PriorGenerated(mf.defs) == GetDefinition(mf, GeneratedKey).value
    ensures GetDefinition(mf, GeneratedKey).None? ==> PriorGenerated(mf.defs) == ""
    ensures PriorGenerated(AddDefinition(mf, GeneratedKey, v).defs) == v
  {
  }

  /** The makefile after FinalPass, stated in closed form: one rule per
      header record appended in order, GENERATED_FLTK_FILES overwritten with
      its prior value followed by this command's generated paths. */
  function FinalState(cmd: Command, mf: Makefile): (r: Makefile)
    requires LockStep(cmd)
    ensures |r.commands| == |mf.commands| + |cmd.wrapHeaders| && r.commands[..|mf.commands|] == mf.commands
    ensures GetDefinition(r, GeneratedKey).Some?
    ensures forall key :: key != GeneratedKey ==> GetDefinition(r, key) == GetDefinition(mf, key)
    ensures r.sources == mf.sources && r.currentDir == mf.currentDir && r.outputDir == mf.outputDir
  {
    var n := |cmd.wrapHeaders|;
    mf.(commands := mf.commands + Rules(cmd, mf.outputDir, n),
        defs := mf.defs[GeneratedKey := PriorGenerated(mf.defs) + GeneratedSuffix(cmd, mf.outputDir, n)])
  }

  /** Appending entry k's two paths to the text of the first k entries,
      after any prefix, gives the text of the first k + 1 entries. */
  lemma SuffixStep(cmd: Command, outdir: string, k: nat, prior: string)
    requires LockStep(cmd) && k < |cmd.wrapHeaders|
    ensures prior + GeneratedSuffix(cmd, outdir, k) + " " + HeaderPath(cmd, outdir, k)
              + " " + SourcePath(cmd, outdir, k)
            == prior + GeneratedSuffix(cmd, outdir, k + 1)
  {
  }

  /** Appending entry k's header path to the depends list of the first k
      entries gives the depends list of rule k. */
  lemma DependsStep(cmd: Command, outdir: string, k: nat)
    requires LockStep(cmd) && k < |cmd.wrapHeaders|
    ensures [FluidExe] + HeaderPaths(cmd, outdir, k) + [HeaderPath(cmd, outdir, k)]
            == [FluidExe] + HeaderPaths(cmd, outdir, k + 1)
  {
  }

  /** Appending rule k to the rules of the first k entries, after any prefix,
      gives the rules of the first k + 1 entries. */
  lemma RulesStep(cmd: Command, outdir: string, k: nat, prefix: seq<CustomCommand>)
    requires LockStep(cmd) && k < |cmd.wrapHeaders|
    ensures prefix + Rules(cmd, outdir, k) + [Rule(cmd, outdir, k)]
            == prefix + Rules(cmd, outdir, k + 1)
  {
  }

  /** FinalPass, step by step as the command performs it: a depends list
      that keeps growing, a text accumulator seeded from the prior
      definition, one rule per index, then the definition written back. */
  method FinalPass(cmd: Command, mf: Makefile) returns (r: Makefile)
    requires LockStep(cmd)
    ensures r == FinalState(cmd, mf)
  {
    var lastHeadersClass := |cmd.wrapHeaders|;
    var depends := [FluidExe];
    var uiList := "";
    match GetDefinition(mf, GeneratedKey) {
      case Some(v) => uiList := uiList + v;
      case None =>
    }
    r := mf;
    var classNum := 0;
    while classNum < lastHeadersClass
      invariant 0 <= classNum <= lastHeadersClass
      invariant depends == [FluidExe] + HeaderPaths(cmd, mf.outputDir, classNum)
      invariant uiList == PriorGenerated(mf.defs) + GeneratedSuffix(cmd, mf.outputDir, classNum)
      invariant r.commands == mf.commands + Rules(cmd, mf.outputDir, classNum)
      invariant r.sources == mf.sources && r.defs == mf.defs
      invariant r.currentDir == mf.currentDir && r.outputDir == mf.outputDir
    {
      var h := cmd.wrapHeaders[classNum];
      var s := cmd.wrapSources[classNum];
      var hres := r.outputDir + "/" + h.name + "." + h.ext;
      var cxxres := r.outputDir + "/" + s.name + "." + s.ext;
      assert hres == HeaderPath(cmd, mf.outputDir, classNum);
      assert cxxres == SourcePath(cmd, mf.outputDir, classNum);
      uiList := uiList + " " + hres + " " + cxxres;
      SuffixStep(cmd, mf.outputDir, classNum, PriorGenerated(mf.defs));
      var ui := cmd.wrapUserInterface[classNum];
      var cxxargs := ["-h", hres, "-o", cxxres, ui];
      depends := depends + [hres];
      DependsStep(cmd, mf.outputDir, classNum);
      var rule := CustomCommand(ui, FluidExe, cxxargs, depends, cxxres, cmd.libraryName);
      assert rule == Rule(cmd, mf.outputDir, classNum);
      r := AddCustomCommand(r, rule);
      RulesStep(cmd, mf.outputDir, classNum, mf.commands);
      classNum := classNum + 1;
    }
    r := AddDefinition(r, GeneratedKey, uiList);
  }
}
