/**
  The part of the build-description evaluator (cmMakefile) and of the
  source-file record (cmSourceFile) that the FLTK_WRAP_UI command talks to,
  reduced to an immutable state record and pure update functions.
 */
module BuildState {

  datatype Option<+T> = None | Some(value: T)

  /** A source-file record: name without extension, the directory given to
      SetName, the extension, the wrap-exclude flag and the dependency list. */
  datatype SourceRec = SourceRec(
    name: string,
    dir: string,
    ext: string,
    wrapExclude: bool,
    depends: seq<string>)

  /** Assumed shape of cmSourceFile::GetFullPath for a record built by SetName
      with a directory, a name and an extension. */
  function FullPath(f: SourceRec): string
  {
    f.dir + "/" + f.name + "." + f.ext
  }

  /** One registered custom build rule; the depends list is a snapshot. */
  datatype CustomCommand = CustomCommand(
    source: string,
    command: string,
    args: seq<string>,
    depends: seq<string>,
    output: string,
    target: string)

  /** The makefile state the command reads and writes. */
  datatype Makefile = Makefile(
    sources: map<string, seq<SourceRec>>,
    defs: map<string, string>,
    commands: seq<CustomCommand>,
    currentDir: string,
    outputDir: string)

  /** The records of a named list; a list that does not exist reads as empty. */
  function Lookup(sources: map<string, seq<SourceRec>>, list: string): seq<SourceRec>
  {
    if list in sources then sources[list] else []
  }

  /** The value of a definition, or None when the key is undefined. */
  function GetDefinition(mf: Makefile, key: string): Option<string>
  {
    if key in mf.defs then Some(mf.defs[key]) else None
  }

  /** Appends one record to a named list, creating the list when it is
      missing; every other list and every other part of the state is kept. */
  function AddSource(mf: Makefile, rec: SourceRec, list: string): (r: Makefile)
    ensures Lookup(r.sources, list) == Lookup(mf.sources, list) + [rec]
    ensures list in r.sources
    ensures forall l :: l != list ==> Lookup(r.sources, l) == Lookup(mf.sources, l)
    ensures forall l :: l != list ==> (l in r.sources <==> l in mf.sources)
    ensures r.defs == mf.defs && r.commands == mf.commands
    ensures r.currentDir == mf.currentDir && r.outputDir == mf.outputDir
  {
    mf.(sources := mf.sources[list := Lookup(mf.sources, list) + [rec]])
  }

  /** Appends one rule to the command log: the log grows by one and ends
      with the new rule, and cutting the log back to its old length gives
      back exactly the makefile before the call. */
  function AddCustomCommand(mf: Makefile, c: CustomCommand): (r: Makefile)
    ensures |r.commands| == |mf.commands| + 1 && r.commands[|mf.commands|] == c
    ensures r.(commands := r.commands[..|mf.commands|]) == mf
  {
    mf.(commands := mf.commands + [c])
  }

  /** Sets (overwrites) one definition; nothing else changes. */
  function AddDefinition(mf: Makefile, key: string, value: string): (r: Makefile)
    ensures GetDefinition(r, key) == Some(value)
    ensures forall k :: k != key ==> GetDefinition(r, k) == GetDefinition(mf, k)
    ensures r.sources == mf.sources && r.commands == mf.commands
    ensures r.currentDir == mf.currentDir && r.outputDir == mf.outputDir
  {
    mf.(defs := mf.defs[key := value])
  }

  /** Definitions behave as a store that is overwritten key by key: writing
      back the value just read changes nothing, and of two writes to the same
      key only the second is visible. */
  lemma DefinitionRoundTrip(mf: Makefile, key: string, v1: string, v2: string)
    ensures GetDefinition(mf, key).Some? ==> AddDefinition(mf, key, GetDefinition(mf, key).value) == mf
    ensures AddDefinition(AddDefinition(mf, key, v1), key, v2) == AddDefinition(mf, key, v2)
  {
  }
}
