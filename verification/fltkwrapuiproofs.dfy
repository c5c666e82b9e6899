/**
  Properties of the FLTK_WRAP_UI model: InitialPass against the reference
  definitions (ordered filtering, the exact records appended, the
  non-atomic failure on an unknown scan list), the well-formedness of the
  recorded entries, and the shape of the rules and of GENERATED_FLTK_FILES
  that FinalPass produces.
 */
module FltkWrapUiProofs {
  import opened BuildState
  import opened FltkWrapUi

  // ---------------------------------------------------------------------
  // The reference functions
  // ---------------------------------------------------------------------

  /** A file is kept by the filter exactly when it is in the list and its
      wrap-exclude flag is clear. */
  lemma {:induction false} EligibleMembers(files: seq<SourceRec>, f: SourceRec)
    ensures f in Eligible(files) <==> f in files && !f.wrapExclude
    decreases |files|
  {
    if files != [] {
      EligibleMembers(files[1..], f);
      assert files == [files[0]] + files[1..];
    }
  }

  lemma {:induction false} OrigNamesIndex(cdir: string, fs: seq<SourceRec>, k: nat)
    requires k < |fs|
    ensures OrigNames(cdir, fs)[k] == OrigName(cdir, fs[k])
    decreases k
  {
    if k > 0 {
      OrigNamesIndex(cdir, fs[1..], k - 1);
    }
  }

  lemma {:induction false} HeaderRecsIndex(fs: seq<SourceRec>, cdir: string, outdir: string, k: nat)
    requires k < |fs|
    ensures HeaderRecs(fs, cdir, outdir)[k] == HeaderFor(fs[k], cdir, outdir)
    decreases k
  {
    if k > 0 {
      HeaderRecsIndex(fs[1..], cdir, outdir, k - 1);
    }
  }

  lemma {:induction false} SourceRecsIndex(fs: seq<SourceRec>, cdir: string, outdir: string, k: nat)
    requires k < |fs|
    ensures SourceRecs(fs, cdir, outdir)[k] == SourceFor(fs[k], cdir, outdir)
    decreases k
  {
    if k > 0 {
      SourceRecsIndex(fs[1..], cdir, outdir, k - 1);
    }
  }

  lemma {:induction false} OrigNamesConcat(cdir: string, a: seq<SourceRec>, b: seq<SourceRec>)
    ensures OrigNames(cdir, a + b) == OrigNames(cdir, a) + OrigNames(cdir, b)
    decreases |a|
  {
    if a == [] {
      assert a + b == b;
    } else {
      OrigNamesConcat(cdir, a[1..], b);
      assert (a + b)[1..] == a[1..] + b;
      AppendAssoc([OrigName(cdir, a[0])], OrigNames(cdir, a[1..]), OrigNames(cdir, b));
    }
  }

  lemma {:induction false} HeaderRecsConcat(a: seq<SourceRec>, b: seq<SourceRec>, cdir: string, outdir: string)
    ensures HeaderRecs(a + b, cdir, outdir) == HeaderRecs(a, cdir, outdir) + HeaderRecs(b, cdir, outdir)
    decreases |a|
  {
    if a == [] {
      assert a + b == b;
    } else {
      HeaderRecsConcat(a[1..], b, cdir, outdir);
      assert (a + b)[1..] == a[1..] + b;
      AppendAssoc([HeaderFor(a[0], cdir, outdir)], HeaderRecs(a[1..], cdir, outdir), HeaderRecs(b, cdir, outdir));
    }
  }

  lemma {:induction false} SourceRecsConcat(a: seq<SourceRec>, b: seq<SourceRec>, cdir: string, outdir: string)
    ensures SourceRecs(a + b, cdir, outdir) == SourceRecs(a, cdir, outdir) + SourceRecs(b, cdir, outdir)
    decreases |a|
  {
    if a == [] {
      assert a + b == b;
    } else {
      SourceRecsConcat(a[1..], b, cdir, outdir);
      assert (a + b)[1..] == a[1..] + b;
      AppendAssoc([SourceFor(a[0], cdir, outdir)], SourceRecs(a[1..], cdir, outdir), SourceRecs(b, cdir, outdir));
    }
  }

  lemma {:induction false} ContributionConcat(l: string, hl: string, sl: string,
                                              a: seq<SourceRec>, b: seq<SourceRec>,
                                              cdir: string, outdir: string)
    ensures Contribution(l, hl, sl, a + b, cdir, outdir)
      == Contribution(l, hl, sl, a, cdir, outdir) + Contribution(l, hl, sl, b, cdir, outdir)
    decreases |a|
  {
    if a == [] {
      assert a + b == b;
    } else {
      ContributionConcat(l, hl, sl, a[1..], b, cdir, outdir);
      assert (a + b)[1..] == a[1..] + b;
      AppendAssoc(FileContribution(l, hl, sl, a[0], cdir, outdir),
                  Contribution(l, hl, sl, a[1..], cdir, outdir), Contribution(l, hl, sl, b, cdir, outdir));
    }
  }

  /** Lists other than the header and implementation lists receive nothing. */
  lemma {:induction false} ContributionOther(l: string, hl: string, sl: string, fs: seq<SourceRec>,
                                             cdir: string, outdir: string)
    requires l != hl && l != sl
    ensures Contribution(l, hl, sl, fs, cdir, outdir) == []
    decreases |fs|
  {
    if fs != [] {
      ContributionOther(l, hl, sl, fs[1..], cdir, outdir);
    }
  }

  /** With two distinct target lists, the header list receives exactly the
      header records and the implementation list exactly the implementation
      records, both in file order. */
  lemma {:induction false} ContributionSplit(hl: string, sl: string, fs: seq<SourceRec>,
                                             cdir: string, outdir: string)
    requires hl != sl
    ensures Contribution(hl, hl, sl, fs, cdir, outdir) == HeaderRecs(fs, cdir, outdir)
    ensures Contribution(sl, hl, sl, fs, cdir, outdir) == SourceRecs(fs, cdir, outdir)
    decreases |fs|
  {
    if fs != [] {
      ContributionSplit(hl, sl, fs[1..], cdir, outdir);
    }
  }

  /** Wrapped reads only the scan lists it is given. */
  lemma {:induction false} WrappedFrame(s1: map<string, seq<SourceRec>>, s2: map<string, seq<SourceRec>>,
                                        names: seq<string>)
    requires forall i :: 0 <= i < |names| ==>
      (names[i] in s1 <==> names[i] in s2) && Lookup(s1, names[i]) == Lookup(s2, names[i])
    ensures Wrapped(s1, names) == Wrapped(s2, names)
    decreases |names|
  {
    if names != [] {
      assert names[0] in s1 <==> names[0] in s2;
      assert Lookup(s1, names[0]) == Lookup(s2, names[0]);
      forall i | 0 <= i < |names[1..]|
        ensures (names[1..][i] in s1 <==> names[1..][i] in s2)
             && Lookup(s1, names[1..][i]) == Lookup(s2, names[1..][i])
      {
        assert names[1..][i] == names[i + 1];
      }
      WrappedFrame(s1, s2, names[1..]);
    }
  }

  /** Wrapped stops at the first unknown scan list. */
  lemma {:induction false} WrappedPrefix(sources: map<string, seq<SourceRec>>, names: seq<string>, j: nat)
    requires j < |names| && names[j] !in sources
    ensures Wrapped(sources, names) == Wrapped(sources, names[..j])
    decreases j
  {
    if j > 0 && names[0] in sources {
      assert names[1..][j - 1] == names[j];
      WrappedPrefix(sources, names[1..], j - 1);
      assert names[1..][..j - 1] == names[..j][1..];
    }
  }

  // ---------------------------------------------------------------------
  // InitialPass
  // ---------------------------------------------------------------------

  /** Wrapping one scan list leaves every list that is neither the header
      nor the implementation list as it was, presence included. */
  lemma WrapFilesKeepsOthers(cmd: Command, mf: Makefile, files: seq<SourceRec>, names: seq<string>)
    requires cmd.headerList !in names && cmd.sourceList !in names
    ensures var m := WrapFiles(cmd, mf, files).1;
      forall i :: 0 <= i < |names| ==>
        (names[i] in m.sources <==> names[i] in mf.sources)
        && Lookup(m.sources, names[i]) == Lookup(mf.sources, names[i])
  {
    forall i | 0 <= i < |names|
      ensures var m := WrapFiles(cmd, mf, files).1;
        (names[i] in m.sources <==> names[i] in mf.sources)
        && Lookup(m.sources, names[i]) == Lookup(mf.sources, names[i])
    {
      WrapFilesList(cmd, mf, files, names[i]);
      WrapFilesKeys(cmd, mf, files, names[i]);
      ContributionOther(names[i], cmd.headerList, cmd.sourceList, Eligible(files), mf.currentDir, mf.outputDir);
    }
  }

  /** One step of the outer loop: the first scan list is wrapped, and what
      the remaining lists contribute is the same before and after it. */
  lemma ScanListsStep(cmd: Command, mf: Makefile, names: seq<string>)
    requires cmd.headerList !in names && cmd.sourceList !in names
    requires names != [] && names[0] in mf.sources
    ensures var w := WrapFiles(cmd, mf, mf.sources[names[0]]);
      && ScanLists(cmd, mf, names) == ScanLists(w.0, w.1, names[1..])
      && Wrapped(mf.sources, names) == Eligible(mf.sources[names[0]]) + Wrapped(w.1.sources, names[1..])
  {
    var w := WrapFiles(cmd, mf, mf.sources[names[0]]);
    assert Wrapped(w.1.sources, names[1..]) == Wrapped(mf.sources, names[1..]) by {
      WrapFilesKeepsOthers(cmd, mf, mf.sources[names[0]], names[1..]);
      WrappedFrame(w.1.sources, mf.sources, names[1..]);
    }
  }

  /** The outer loop against its reference, for the member sequences: each
      is extended by one entry per eligible file of the scan lists before
      the first unknown one. */
  lemma {:induction false} ScanListsOrigs(cmd: Command, mf: Makefile, names: seq<string>)
    requires cmd.headerList !in names && cmd.sourceList !in names
    ensures ScanLists(cmd, mf, names).cmd.wrapUserInterface
      == cmd.wrapUserInterface + OrigNames(mf.currentDir, Wrapped(mf.sources, names))
    decreases |names|
  {
    if names != [] && names[0] in mf.sources {
      var files := mf.sources[names[0]];
      var w := WrapFiles(cmd, mf, files);
      ScanListsStep(cmd, mf, names);
      var e := Eligible(files);
      var tail := Wrapped(w.1.sources, names[1..]);
      assert w.1.currentDir == mf.currentDir && w.1.outputDir == mf.outputDir;
      assert w.0.headerList == cmd.headerList && w.0.sourceList == cmd.sourceList;
      assert w.0.headerList !in names[1..] && w.0.sourceList !in names[1..] by {
        assert forall x :: x in names[1..] ==> x in names;
      }
      assert Wrapped(mf.sources, names) == e + tail;
      calc {
        ScanLists(cmd, mf, names).cmd.wrapUserInterface;
        ScanLists(w.0, w.1, names[1..]).cmd.wrapUserInterface;
        { ScanListsOrigs(w.0, w.1, names[1..]); }
        w.0.wrapUserInterface + OrigNames(mf.currentDir, tail);
        { WrapFilesOrigs(cmd, mf, files); }
        cmd.wrapUserInterface + OrigNames(mf.currentDir, e) + OrigNames(mf.currentDir, tail);
        { OrigNamesConcat(mf.currentDir, e, tail);
          AppendAssoc(cmd.wrapUserInterface, OrigNames(mf.currentDir, e), OrigNames(mf.currentDir, tail)); }
        cmd.wrapUserInterface + OrigNames(mf.currentDir, (e + tail));
      }
    } else {
      assert Wrapped(mf.sources, names) == [];
      assert ScanLists(cmd, mf, names).cmd == cmd;
    }
  }

  lemma {:induction false} ScanListsHeaders(cmd: Command, mf: Makefile, names: seq<string>)
    requires cmd.headerList !in names && cmd.sourceList !in names
    ensures ScanLists(cmd, mf, names).cmd.wrapHeaders
      == cmd.wrapHeaders + HeaderRecs(Wrapped(mf.sources, names), mf.currentDir, mf.outputDir)
    decreases |names|
  {
    if names != [] && names[0] in mf.sources {
      var files := mf.sources[names[0]];
      var w := WrapFiles(cmd, mf, files);
      ScanListsStep(cmd, mf, names);
      var e := Eligible(files);
      var tail := Wrapped(w.1.sources, names[1..]);
      assert w.1.currentDir == mf.currentDir && w.1.outputDir == mf.outputDir;
      assert w.0.headerList == cmd.headerList && w.0.sourceList == cmd.sourceList;
      assert w.0.headerList !in names[1..] && w.0.sourceList !in names[1..] by {
        assert forall x :: x in names[1..] ==> x in names;
      }
      assert Wrapped(mf.sources, names) == e + tail;
      calc {
        ScanLists(cmd, mf, names).cmd.wrapHeaders;
        ScanLists(w.0, w.1, names[1..]).cmd.wrapHeaders;
        { ScanListsHeaders(w.0, w.1, names[1..]); }
        w.0.wrapHeaders + HeaderRecs(tail, mf.currentDir, mf.outputDir);
        { WrapFilesHeaders(cmd, mf, files); }
        cmd.wrapHeaders + HeaderRecs(e, mf.currentDir, mf.outputDir) + HeaderRecs(tail, mf.currentDir, mf.outputDir);
        { HeaderRecsConcat(e, tail, mf.currentDir, mf.outputDir);
          AppendAssoc(cmd.wrapHeaders, HeaderRecs(e, mf.currentDir, mf.outputDir), HeaderRecs(tail, mf.currentDir, mf.outputDir)); }
        cmd.wrapHeaders + HeaderRecs((e + tail), mf.currentDir, mf.outputDir);
      }
    } else {
      assert Wrapped(mf.sources, names) == [];
      assert ScanLists(cmd, mf, names).cmd == cmd;
    }
  }

  lemma {:induction false} ScanListsSources(cmd: Command, mf: Makefile, names: seq<string>)
    requires cmd.headerList !in names && cmd.sourceList !in names
    ensures ScanLists(cmd, mf, names).cmd.wrapSources
      == cmd.wrapSources + SourceRecs(Wrapped(mf.sources, names), mf.currentDir, mf.outputDir)
    decreases |names|
  {
    if names != [] && names[0] in mf.sources {
      var files := mf.sources[names[0]];
      var w := WrapFiles(cmd, mf, files);
      ScanListsStep(cmd, mf, names);
      var e := Eligible(files);
      var tail := Wrapped(w.1.sources, names[1..]);
      assert w.1.currentDir == mf.currentDir && w.1.outputDir == mf.outputDir;
      assert w.0.headerList == cmd.headerList && w.0.sourceList == cmd.sourceList;
      assert w.0.headerList !in names[1..] && w.0.sourceList !in names[1..] by {
        assert forall x :: x in names[1..] ==> x in names;
      }
      assert Wrapped(mf.sources, names) == e + tail;
      calc {
        ScanLists(cmd, mf, names).cmd.wrapSources;
        ScanLists(w.0, w.1, names[1..]).cmd.wrapSources;
        { ScanListsSources(w.0, w.1, names[1..]); }
        w.0.wrapSources + SourceRecs(tail, mf.currentDir, mf.outputDir);
        { WrapFilesSources(cmd, mf, files); }
        cmd.wrapSources + SourceRecs(e, mf.currentDir, mf.outputDir) + SourceRecs(tail, mf.currentDir, mf.outputDir);
        { SourceRecsConcat(e, tail, mf.currentDir, mf.outputDir);
          AppendAssoc(cmd.wrapSources, SourceRecs(e, mf.currentDir, mf.outputDir), SourceRecs(tail, mf.currentDir, mf.outputDir)); }
        cmd.wrapSources + SourceRecs((e + tail), mf.currentDir, mf.outputDir);
      }
    } else {
      assert Wrapped(mf.sources, names) == [];
      assert ScanLists(cmd, mf, names).cmd == cmd;
    }
  }

  /** The outer loop against its reference, for one named list. */
  lemma {:induction false} ScanListsList(cmd: Command, mf: Makefile, names: seq<string>, l: string)
    requires cmd.headerList !in names && cmd.sourceList !in names
    ensures Lookup(ScanLists(cmd, mf, names).mf.sources, l)
      == Lookup(mf.sources, l)
         + Contribution(l, cmd.headerList, cmd.sourceList, Wrapped(mf.sources, names), mf.currentDir, mf.outputDir)
    decreases |names|
  {
    if names != [] && names[0] in mf.sources {
      var files := mf.sources[names[0]];
      var w := WrapFiles(cmd, mf, files);
      var rest := names[1..];
      ScanListsStep(cmd, mf, names);
      ScanListsList(w.0, w.1, rest, l);
      WrapFilesList(cmd, mf, files, l);
      ContributionConcat(l, cmd.headerList, cmd.sourceList, Eligible(files), Wrapped(w.1.sources, rest),
                         mf.currentDir, mf.outputDir);
    }
  }

  /** The outer loop creates a list only when it appends something to it. */
  lemma {:induction false} ScanListsKeys(cmd: Command, mf: Makefile, names: seq<string>, l: string)
    requires cmd.headerList !in names && cmd.sourceList !in names
    ensures l in ScanLists(cmd, mf, names).mf.sources <==>
      l in mf.sources
      || (Wrapped(mf.sources, names) != [] && (l == cmd.headerList || l == cmd.sourceList))
    decreases |names|
  {
    if names != [] && names[0] in mf.sources {
      var files := mf.sources[names[0]];
      var w := WrapFiles(cmd, mf, files);
      var rest := names[1..];
      ScanListsStep(cmd, mf, names);
      ScanListsKeys(w.0, w.1, rest, l);
      WrapFilesKeys(cmd, mf, files, l);
    }
  }

  /** InitialPass once both gates are open: Ok exactly when every scan list
      is known, BadSourceList otherwise. */
  lemma InitialPassStatus(cmd: Command, mf: Makefile, args: seq<string>, isOff: string -> bool)
    requires |args| >= 4 && args[1] !in args[3..] && args[2] !in args[3..]
    requires WrapSwitch in mf.defs && !isOff(mf.defs[WrapSwitch])
    ensures InitialPass(cmd, mf, args, isOff).status
      == (if AllKnown(mf.sources, args[3..]) then Ok else Failed(BadSourceList))
  {
    var c := cmd.(libraryName := args[0], headerList := args[1], sourceList := args[2]);
    assert InitialPass(cmd, mf, args, isOff) == ScanLists(c, mf, args[3..]);
    ScanListsKnown(c, mf, args[3..]);
  }

  /** Once both gates pass, the names are recorded and each member sequence
      is extended by exactly one entry per eligible file of the scan lists
      before the first unknown one, in scan-list order then file order,
      whether or not the scan stops early. */
  lemma InitialPassRecords(cmd: Command, mf: Makefile, args: seq<string>, isOff: string -> bool)
    requires |args| >= 4 && args[1] !in args[3..] && args[2] !in args[3..]
    requires WrapSwitch in mf.defs && !isOff(mf.defs[WrapSwitch])
    ensures var w := Wrapped(mf.sources, args[3..]);
      InitialPass(cmd, mf, args, isOff).cmd
        == Command(args[0], args[1], args[2],
                   cmd.wrapUserInterface + OrigNames(mf.currentDir, w),
                   cmd.wrapHeaders + HeaderRecs(w, mf.currentDir, mf.outputDir),
                   cmd.wrapSources + SourceRecs(w, mf.currentDir, mf.outputDir))
  {
    var c := cmd.(libraryName := args[0], headerList := args[1], sourceList := args[2]);
    assert InitialPass(cmd, mf, args, isOff) == ScanLists(c, mf, args[3..]);
    ScanListsOrigs(c, mf, args[3..]);
    ScanListsHeaders(c, mf, args[3..]);
    ScanListsSources(c, mf, args[3..]);
  }


  /** InitialPass once both gates are open, for any named list l: it ends
      with what the eligible files of the scan lists before the first
      unknown one contribute to it, so an unknown list does not undo what
      earlier lists appended, and it exists afterwards exactly when it
      existed before or received something. */
  lemma InitialPassLists(cmd: Command, mf: Makefile, args: seq<string>, isOff: string -> bool, l: string)
    requires |args| >= 4 && args[1] !in args[3..] && args[2] !in args[3..]
    requires WrapSwitch in mf.defs && !isOff(mf.defs[WrapSwitch])
    ensures var r := InitialPass(cmd, mf, args, isOff);
      var w := Wrapped(mf.sources, args[3..]);
      && Lookup(r.mf.sources, l)
         == Lookup(mf.sources, l) + Contribution(l, args[1], args[2], w, mf.currentDir, mf.outputDir)
      && (l in r.mf.sources <==> l in mf.sources || (w != [] && (l == args[1] || l == args[2])))
  {
    var c := cmd.(libraryName := args[0], headerList := args[1], sourceList := args[2]);
    assert InitialPass(cmd, mf, args, isOff) == ScanLists(c, mf, args[3..]);
    ScanListsList(c, mf, args[3..], l);
    ScanListsKeys(c, mf, args[3..], l);
  }

  /** With distinct header and implementation lists, a successful
      InitialPass appends exactly one header record (extension h) and one
      implementation record (extension cxx) per eligible file, in scan-list
      order then file order, and leaves every other list unchanged. */
  lemma InitialPassAppends(cmd: Command, mf: Makefile, args: seq<string>, isOff: string -> bool)
    requires |args| >= 4 && args[1] !in args[3..] && args[2] !in args[3..]
    requires args[1] != args[2]
    requires WrapSwitch in mf.defs && !isOff(mf.defs[WrapSwitch])
    ensures var r := InitialPass(cmd, mf, args, isOff);
      var w := Wrapped(mf.sources, args[3..]);
      && Lookup(r.mf.sources, args[1]) == Lookup(mf.sources, args[1]) + HeaderRecs(w, mf.currentDir, mf.outputDir)
      && Lookup(r.mf.sources, args[2]) == Lookup(mf.sources, args[2]) + SourceRecs(w, mf.currentDir, mf.outputDir)
      && |Lookup(r.mf.sources, args[1])| == |Lookup(mf.sources, args[1])| + |w|
      && |Lookup(r.mf.sources, args[2])| == |Lookup(mf.sources, args[2])| + |w|
    ensures var r := InitialPass(cmd, mf, args, isOff);
      forall l :: l != args[1] && l != args[2] ==>
        (l in r.mf.sources <==> l in mf.sources) && Lookup(r.mf.sources, l) == Lookup(mf.sources, l)
  {
    var w := Wrapped(mf.sources, args[3..]);
    InitialPassLists(cmd, mf, args, isOff, args[1]);
    InitialPassLists(cmd, mf, args, isOff, args[2]);
    ContributionSplit(args[1], args[2], w, mf.currentDir, mf.outputDir);
    forall l | l != args[1] && l != args[2]
      ensures var r := InitialPass(cmd, mf, args, isOff);
        (l in r.mf.sources <==> l in mf.sources) && Lookup(r.mf.sources, l) == Lookup(mf.sources, l)
    {
      InitialPassLists(cmd, mf, args, isOff, l);
      ContributionOther(l, args[1], args[2], w, mf.currentDir, mf.outputDir);
    }
  }

  /** An unknown scan list at position j (the first one) leaves exactly the
      state that InitialPass over the scan lists before it would leave, but
      reports failure: the failure is not atomic. */
  lemma InitialPassFailureKeepsPrefix(cmd: Command, mf: Makefile, args: seq<string>,
                                      isOff: string -> bool, j: nat)
    requires |args| >= 4 && args[1] !in args[3..] && args[2] !in args[3..]
    requires WrapSwitch in mf.defs && !isOff(mf.defs[WrapSwitch])
    requires 4 <= 3 + j < |args| && args[3 + j] !in mf.sources
    requires forall i :: 3 <= i < 3 + j ==> args[i] in mf.sources
    ensures var r := InitialPass(cmd, mf, args, isOff);
      var p := InitialPass(cmd, mf, args[..3 + j], isOff);
      && r.status == Failed(BadSourceList) && p.status == Ok
      && r.cmd == p.cmd && r.mf == p.mf
  {
    var names := args[3..];
    var pre := args[..3 + j];
    assert pre[3..] == names[..j];
    assert names[j] == args[3 + j];
    forall i | 0 <= i < |pre[3..]| ensures pre[3..][i] in mf.sources {
      assert pre[3..][i] == args[3 + i];
    }
    assert pre[1] !in pre[3..] && pre[2] !in pre[3..] by {
      assert forall x :: x in pre[3..] ==> x in names;
    }
    WrappedPrefix(mf.sources, names, j);
    InitialPassStatus(cmd, mf, args, isOff);
    InitialPassRecords(cmd, mf, args, isOff);
    InitialPassStatus(cmd, mf, pre, isOff);
    InitialPassRecords(cmd, mf, pre, isOff);
    var r := InitialPass(cmd, mf, args, isOff);
    var p := InitialPass(cmd, mf, pre, isOff);
    assert r.mf.sources == p.mf.sources by {
      forall l ensures l in r.mf.sources <==> l in p.mf.sources {
        InitialPassLists(cmd, mf, args, isOff, l);
        InitialPassLists(cmd, mf, pre, isOff, l);
      }
      forall l | l in r.mf.sources ensures r.mf.sources[l] == p.mf.sources[l] {
        InitialPassLists(cmd, mf, args, isOff, l);
        InitialPassLists(cmd, mf, pre, isOff, l);
      }
    }
  }

  /** Running InitialPass a second time with the same arguments wraps the
      same files again: nothing guards against double registration except
      the wrap-exclude flag. */
  lemma InitialPassTwice(cmd: Command, mf: Makefile, args: seq<string>, isOff: string -> bool)
    requires |args| >= 4 && args[1] !in args[3..] && args[2] !in args[3..]
    requires args[1] != args[2]
    requires WrapSwitch in mf.defs && !isOff(mf.defs[WrapSwitch])
    ensures var r1 := InitialPass(cmd, mf, args, isOff);
      var r2 := InitialPass(r1.cmd, r1.mf, args, isOff);
      var w := Wrapped(mf.sources, args[3..]);
      && r2.status == r1.status
      && Lookup(r2.mf.sources, args[1])
         == Lookup(mf.sources, args[1]) + HeaderRecs(w, mf.currentDir, mf.outputDir)
                                        + HeaderRecs(w, mf.currentDir, mf.outputDir)
      && r2.cmd.wrapHeaders
         == cmd.wrapHeaders + HeaderRecs(w, mf.currentDir, mf.outputDir)
                            + HeaderRecs(w, mf.currentDir, mf.outputDir)
  {
    var names := args[3..];
    var r1 := InitialPass(cmd, mf, args, isOff);
    InitialPassAppends(cmd, mf, args, isOff);
    InitialPassRecords(cmd, mf, args, isOff);
    assert Wrapped(r1.mf.sources, names) == Wrapped(mf.sources, names) by {
      forall i | 0 <= i < |names|
        ensures (names[i] in r1.mf.sources <==> names[i] in mf.sources)
             && Lookup(r1.mf.sources, names[i]) == Lookup(mf.sources, names[i])
      {
        assert names[i] != args[1] && names[i] != args[2];
      }
      WrappedFrame(r1.mf.sources, mf.sources, names);
    }
    assert AllKnown(r1.mf.sources, names) <==> AllKnown(mf.sources, names) by {
      forall i | 0 <= i < |names| ensures names[i] in r1.mf.sources <==> names[i] in mf.sources {
        assert names[i] != args[1] && names[i] != args[2];
      }
    }
    assert InitialPass(r1.cmd, r1.mf, args, isOff).status == r1.status by {
      InitialPassStatus(cmd, mf, args, isOff);
      InitialPassStatus(r1.cmd, r1.mf, args, isOff);
    }
    InitialPassAppends(r1.cmd, r1.mf, args, isOff);
    InitialPassRecords(r1.cmd, r1.mf, args, isOff);
  }

  // ---------------------------------------------------------------------
  // Well-formed entries, from InitialPass to FinalPass
  // ---------------------------------------------------------------------

  /** Entry k is what InitialPass records for one wrapped file: a header and an
      implementation record of the same name in the output directory, with
      extensions h and cxx, the header depending on the original file and the
      implementation on the header's full path and the original file. */
  predicate EntryOk(cmd: Command, outdir: string, k: nat)
    requires LockStep(cmd) && k < |cmd.wrapHeaders|
  {
    var ui := cmd.wrapUserInterface[k];
    var h := cmd.wrapHeaders[k];
    var s := cmd.wrapSources[k];
    && h.dir == outdir && s.dir == outdir && h.name == s.name
    && h.ext == HeaderExt && s.ext == SourceExt
    && !h.wrapExclude && !s.wrapExclude
    && h.depends == [ui] && s.depends == [FullPath(h), ui]
  }

  predicate WellFormed(cmd: Command, outdir: string)
  {
    && LockStep(cmd)
    && forall k :: 0 <= k < |cmd.wrapHeaders| ==> EntryOk(cmd, outdir, k)
  }

  /** InitialPass, successful or not, keeps the member sequences in
      lock-step and every recorded entry well formed, so FinalPass's indices
      stay in range for all three sequences. */
  lemma InitialPassKeepsWellFormed(cmd: Command, mf: Makefile, args: seq<string>, isOff: string -> bool)
    requires |args| >= 4 && WrapSwitch in mf.defs && !isOff(mf.defs[WrapSwitch])
             ==> args[1] !in args[3..] && args[2] !in args[3..]
    requires WellFormed(cmd, mf.outputDir)
    ensures WellFormed(InitialPass(cmd, mf, args, isOff).cmd, mf.outputDir)
  {
    if |args| >= 4 && WrapSwitch in mf.defs && !isOff(mf.defs[WrapSwitch]) {
      InitialPassRecords(cmd, mf, args, isOff);
      var r := InitialPass(cmd, mf, args, isOff).cmd;
      var w := Wrapped(mf.sources, args[3..]);
      var n := |cmd.wrapHeaders|;
      forall k | 0 <= k < |r.wrapHeaders| ensures EntryOk(r, mf.outputDir, k) {
        if k < n {
          assert EntryOk(cmd, mf.outputDir, k);
          assert r.wrapUserInterface[k] == cmd.wrapUserInterface[k];
          assert r.wrapHeaders[k] == cmd.wrapHeaders[k];
          assert r.wrapSources[k] == cmd.wrapSources[k];
        } else {
          OrigNamesIndex(mf.currentDir, w, k - n);
          HeaderRecsIndex(w, mf.currentDir, mf.outputDir, k - n);
          SourceRecsIndex(w, mf.currentDir, mf.outputDir, k - n);
        }
      }
    }
  }

  /** For a well-formed entry, its rule runs fluid on the very file both
      records depend on, writes with `-h` the header record's full path
      (the implementation record's first dependency) and with `-o` the
      implementation record's full path, which is the rule's output. */
  lemma RuleMatchesRecords(cmd: Command, outdir: string, k: nat)
    requires WellFormed(cmd, outdir) && k < |cmd.wrapHeaders|
    ensures var rule := Rule(cmd, outdir, k);
      var h := cmd.wrapHeaders[k];
      var s := cmd.wrapSources[k];
      && rule.args == ["-h", FullPath(h), "-o", FullPath(s), rule.source]
      && rule.output == FullPath(s)
      && h.depends == [rule.source]
      && s.depends == [FullPath(h), rule.source]
  {
    assert EntryOk(cmd, outdir, k);
  }

  // ---------------------------------------------------------------------
  // FinalPass
  // ---------------------------------------------------------------------

  lemma {:induction false} HeaderPathsIndex(cmd: Command, outdir: string, m: nat, j: nat)
    requires j < m <= |cmd.wrapHeaders|
    ensures HeaderPaths(cmd, outdir, m)[j] == HeaderPath(cmd, outdir, j)
    decreases m
  {
    if j < m - 1 {
      HeaderPathsIndex(cmd, outdir, m - 1, j);
    }
  }

  lemma {:induction false} RulesIndex(cmd: Command, outdir: string, m: nat, k: nat)
    requires LockStep(cmd) && k < m <= |cmd.wrapHeaders|
    ensures Rules(cmd, outdir, m)[k] == Rule(cmd, outdir, k)
    decreases m
  {
    if k < m - 1 {
      RulesIndex(cmd, outdir, m - 1, k);
    }
  }

  /** The dependency list of rule k is the fluid executable followed by the
      header paths of entries 0 to k, so it is one longer than rule k-1's
      and extends it by exactly the k-th header path. */
  lemma RuleDepends(cmd: Command, outdir: string, k: nat)
    requires LockStep(cmd) && k < |cmd.wrapHeaders|
    ensures var d := Rule(cmd, outdir, k).depends;
      && |d| == k + 2 && d[0] == FluidExe
      && (forall j :: 0 <= j <= k ==> d[j + 1] == HeaderPath(cmd, outdir, j))
    ensures k > 0 ==>
      Rule(cmd, outdir, k).depends == Rule(cmd, outdir, k - 1).depends + [HeaderPath(cmd, outdir, k)]
  {
    var d := Rule(cmd, outdir, k).depends;
    forall j | 0 <= j <= k ensures d[j + 1] == HeaderPath(cmd, outdir, j) {
      HeaderPathsIndex(cmd, outdir, k + 1, j);
    }
  }

  /** The generated-files text only grows from entry to entry: the text of
      the first j entries is a prefix of the text of the first k, and any
      non-empty text starts with the separating space. */
  lemma {:induction false} GeneratedSuffixGrows(cmd: Command, outdir: string, j: nat, k: nat)
    requires LockStep(cmd) && j <= k <= |cmd.wrapHeaders|
    ensures GeneratedSuffix(cmd, outdir, j) <= GeneratedSuffix(cmd, outdir, k)
    ensures k > 0 ==> |GeneratedSuffix(cmd, outdir, k)| > 0 && GeneratedSuffix(cmd, outdir, k)[0] == ' '
    decreases k
  {
    if k > 0 {
      var prev := GeneratedSuffix(cmd, outdir, k - 1);
      var tail := " " + HeaderPath(cmd, outdir, k - 1) + " " + SourcePath(cmd, outdir, k - 1);
      assert GeneratedSuffix(cmd, outdir, k) == prev + tail;
      assert |tail| > 0 && tail[0] == ' ';
      if j < k {
        assert GeneratedSuffix(cmd, outdir, j) <= prev by {
          GeneratedSuffixGrows(cmd, outdir, j, k - 1);
        }
        assert prev <= prev + tail;
      }
      if k > 1 {
        assert |prev| > 0 && prev[0] == ' ' by {
          GeneratedSuffixGrows(cmd, outdir, k - 1, k - 1);
        }
        assert (prev + tail)[0] == prev[0];
      } else {
        assert prev == "";
        assert (prev + tail)[0] == tail[0];
      }
    }
  }

  /** FinalPass appends exactly one rule per header record, in order, after
      the rules already registered, and sets GENERATED_FLTK_FILES (even when
      there is nothing to wrap, in which case it keeps its prior value or
      becomes empty). */
  lemma FinalStateCommands(cmd: Command, mf: Makefile)
    requires LockStep(cmd)
    ensures var f := FinalState(cmd, mf); var o := |mf.commands|;
      && |f.commands| == o + |cmd.wrapHeaders|
      && f.commands[..o] == mf.commands
      && (forall k :: 0 <= k < |cmd.wrapHeaders| ==> f.commands[o + k] == Rule(cmd, mf.outputDir, k))
      && f.sources == mf.sources
    ensures var f := FinalState(cmd, mf);
      GetDefinition(f, GeneratedKey)
        == Some(PriorGenerated(mf.defs) + GeneratedSuffix(cmd, mf.outputDir, |cmd.wrapHeaders|))
    ensures |cmd.wrapHeaders| == 0 ==>
      GetDefinition(FinalState(cmd, mf), GeneratedKey) == Some(PriorGenerated(mf.defs))
  {
    var o := |mf.commands|;
    var n := |cmd.wrapHeaders|;
    var f := FinalState(cmd, mf);
    forall k | 0 <= k < n ensures f.commands[o + k] == Rule(cmd, mf.outputDir, k) {
      RulesIndex(cmd, mf.outputDir, n, k);
    }
    if n == 0 {
      assert PriorGenerated(mf.defs) + "" == PriorGenerated(mf.defs);
    }
  }

  /** Several commands' FinalPasses run one after another on the same
      makefile. */
  function FinalStates(cmds: seq<Command>, mf: Makefile): (r: Makefile)
    requires forall i :: 0 <= i < |cmds| ==> LockStep(cmds[i])
    ensures r.outputDir == mf.outputDir && r.sources == mf.sources
    decreases |cmds|
  {
    if cmds == [] then mf else FinalStates(cmds[1..], FinalState(cmds[0], mf))
  }

  /** Everything the commands publish, in invocation order. */
  function AllSuffixes(cmds: seq<Command>, outdir: string): string
    requires forall i :: 0 <= i < |cmds| ==> LockStep(cmds[i])
    decreases |cmds|
  {
    if cmds == [] then ""
    else GeneratedSuffix(cmds[0], outdir, |cmds[0].wrapHeaders|) + AllSuffixes(cmds[1..], outdir)
  }

  /** GENERATED_FLTK_FILES only grows across invocations: after N FinalPasses
      it holds its value from before them followed by each invocation's own
      generated paths, in invocation order. */
  lemma {:induction false} PublishedAccumulates(cmds: seq<Command>, mf: Makefile)
    requires forall i :: 0 <= i < |cmds| ==> LockStep(cmds[i])
    ensures PriorGenerated(FinalStates(cmds, mf).defs)
      == PriorGenerated(mf.defs) + AllSuffixes(cmds, mf.outputDir)
    ensures cmds != [] ==> GeneratedKey in FinalStates(cmds, mf).defs
    decreases |cmds|
  {
    if cmds != [] {
      var m1 := FinalState(cmds[0], mf);
      PublishedAccumulates(cmds[1..], m1);
      var a := PriorGenerated(mf.defs);
      var b := GeneratedSuffix(cmds[0], mf.outputDir, |cmds[0].wrapHeaders|);
      var c := AllSuffixes(cmds[1..], mf.outputDir);
      assert FinalStates(cmds, mf) == FinalStates(cmds[1..], m1);
      assert AllSuffixes(cmds, mf.outputDir) == b + c;
      assert m1.outputDir == mf.outputDir;
      assert PriorGenerated(m1.defs) == a + b by {
        assert m1.defs == mf.defs[GeneratedKey := a + b];
      }
      AppendAssoc(a, b, c);
      if cmds[1..] == [] {
        assert FinalStates(cmds, mf) == m1;
      }
    }
  }

  // ---------------------------------------------------------------------
  // A worked scenario
  // ---------------------------------------------------------------------

  /** FinalPass for a command holding a single entry. */
  lemma FinalStateSingleEntry(cmd: Command, mf: Makefile)
    requires LockStep(cmd) && |cmd.wrapHeaders| == 1
    ensures var ui := cmd.wrapUserInterface[0];
      var hres := mf.outputDir + "/" + cmd.wrapHeaders[0].name + "." + cmd.wrapHeaders[0].ext;
      var cxxres := mf.outputDir + "/" + cmd.wrapSources[0].name + "." + cmd.wrapSources[0].ext;
      var f := FinalState(cmd, mf);
      && f.commands == mf.commands + [CustomCommand(ui, FluidExe, ["-h", hres, "-o", cxxres, ui],
                                                    [FluidExe, hres], cxxres, cmd.libraryName)]
      && GetDefinition(f, GeneratedKey) == Some(PriorGenerated(mf.defs) + (" " + hres + " " + cxxres))
  {
    var hres := HeaderPath(cmd, mf.outputDir, 0);
    var cxxres := SourcePath(cmd, mf.outputDir, 0);
    var ui := cmd.wrapUserInterface[0];
    assert HeaderPaths(cmd, mf.outputDir, 1) == [hres];
    assert Rules(cmd, mf.outputDir, 1) == [Rule(cmd, mf.outputDir, 0)];
    assert Rule(cmd, mf.outputDir, 0)
        == CustomCommand(ui, FluidExe, ["-h", hres, "-o", cxxres, ui], [FluidExe, hres], cxxres, cmd.libraryName);
    assert GeneratedSuffix(cmd, mf.outputDir, 1) == "" + " " + hres + " " + cxxres;
    assert "" + " " + hres + " " + cxxres == " " + hres + " " + cxxres;
  }

  /** InitialPass over one scan list `list` holding a wrapped file `a` and an
      excluded file `b`, invoked as (lib, hl, sl, list) with the wrap switch
      on: one header record and one implementation record for `a`, nothing
      for `b`. */
  lemma ScenarioInitialPass(isOff: string -> bool, on: string, lib: string, hl: string,
                            sl: string, list: string, cdir: string, outdir: string,
                            a: SourceRec, b: SourceRec)
    requires !isOff(on) && !a.wrapExclude && b.wrapExclude
    requires hl != sl && list != hl && list != sl
    ensures var mf := Makefile(map[list := [a, b]], map[WrapSwitch := on], [], cdir, outdir);
      var r := InitialPass(Fresh, mf, [lib, hl, sl, list], isOff);
      var orig := cdir + "/" + a.name + "." + a.ext;
      var h := SourceRec(a.name, outdir, "h", false, [orig]);
      var c := SourceRec(a.name, outdir, "cxx", false, [outdir + "/" + a.name + ".h", orig]);
      && r.status == Ok && r.cmd == Command(lib, hl, sl, [orig], [h], [c])
      && Lookup(r.mf.sources, hl) == [h] && Lookup(r.mf.sources, sl) == [c]
      && Lookup(r.mf.sources, list) == [a, b]
      && r.mf.commands == [] && r.mf.outputDir == outdir && r.mf.defs == mf.defs
  {
    var mf := Makefile(map[list := [a, b]], map[WrapSwitch := on], [], cdir, outdir);
    var args := [lib, hl, sl, list];
    var r := InitialPass(Fresh, mf, args, isOff);
    var orig := cdir + "/" + a.name + "." + a.ext;
    var h := SourceRec(a.name, outdir, "h", false, [orig]);
    var c := SourceRec(a.name, outdir, "cxx", false, [outdir + "/" + a.name + ".h", orig]);
    assert args[3..] == [list];
    assert Wrapped(mf.sources, [list]) == [a] by {
      assert [list][1..] == [];
      assert [a, b][1..] == [b];
      assert [b][1..] == [];
      assert Eligible([a, b]) == [a];
    }
    assert HeaderFor(a, cdir, outdir) == h;
    assert SourceFor(a, cdir, outdir) == c;
    assert r.status == Ok by {
      InitialPassStatus(Fresh, mf, args, isOff);
    }
    assert r.cmd == Command(lib, hl, sl, [orig], [h], [c]) by {
      assert [a][1..] == [];
      assert HeaderRecs([a], cdir, outdir) == [h];
      assert SourceRecs([a], cdir, outdir) == [c];
      InitialPassRecords(Fresh, mf, args, isOff);
    }
    assert Lookup(r.mf.sources, hl) == [h] by {
      assert [a][1..] == [];
      assert Contribution(hl, hl, sl, [a], cdir, outdir) == [h];
      InitialPassLists(Fresh, mf, args, isOff, hl);
    }
    assert Lookup(r.mf.sources, sl) == [c] by {
      assert [a][1..] == [];
      assert Contribution(sl, hl, sl, [a], cdir, outdir) == [c];
      InitialPassLists(Fresh, mf, args, isOff, sl);
    }
    assert Lookup(r.mf.sources, list) == [a, b] by {
      InitialPassLists(Fresh, mf, args, isOff, list);
      ContributionOther(list, hl, sl, Wrapped(mf.sources, [list]), cdir, outdir);
    }
  }

  /** The worked scenario end to end: with no prior GENERATED_FLTK_FILES,
      one fluid rule for `a` and the published list made of a space, the
      header path, a space and the implementation path. */
  lemma ScenarioOneWrappedOneExcluded(isOff: string -> bool, on: string, lib: string, hl: string,
                                      sl: string, list: string, cdir: string, outdir: string,
                                      a: SourceRec, b: SourceRec)
    requires !isOff(on) && !a.wrapExclude && b.wrapExclude
    requires hl != sl && list != hl && list != sl
    ensures var mf := Makefile(map[list := [a, b]], map[WrapSwitch := on], [], cdir, outdir);
      var r := InitialPass(Fresh, mf, [lib, hl, sl, list], isOff);
      var f := FinalState(r.cmd, r.mf);
      var orig := cdir + "/" + a.name + "." + a.ext;
      var hres := outdir + "/" + a.name + ".h";
      var cxxres := outdir + "/" + a.name + ".cxx";
      && f.commands == [CustomCommand(orig, "${FLTK_FLUID_EXE}", ["-h", hres, "-o", cxxres, orig],
                                      ["${FLTK_FLUID_EXE}", hres], cxxres, lib)]
      && GetDefinition(f, "GENERATED_FLTK_FILES") == Some(" " + hres + " " + cxxres)
  {
    var mf := Makefile(map[list := [a, b]], map[WrapSwitch := on], [], cdir, outdir);
    ScenarioInitialPass(isOff, on, lib, hl, sl, list, cdir, outdir, a, b);
    var r := InitialPass(Fresh, mf, [lib, hl, sl, list], isOff);
    FinalStateSingleEntry(r.cmd, r.mf);
    var hres := outdir + "/" + a.name + ".h";
    var cxxres := outdir + "/" + a.name + ".cxx";
    assert r.cmd.wrapHeaders[0] == HeaderFor(a, cdir, outdir);
    assert r.cmd.wrapSources[0] == SourceFor(a, cdir, outdir);
    assert "" + (" " + hres + " " + cxxres) == " " + hres + " " + cxxres;
  }
}
