/**
 * The eager package parser of src/parse/types.rs:292-414 and its printer
 * (src/parse/types.rs:449-459). In this generation Priority and Section are
 * required shared fields, parsed when the record is.
 *
 * Helpers the parser calls but whose code is not part of this model
 * (`ident::read`, `yes_no`, `rfc822::joined`, `deps::read` and the source
 * helpers of `src` and `vcs`) are the fields of a `Collaborators` value: the
 * model says what the parser does with their answers, never what the answers are.
 */
module LegacyPackage {
  import opened Results
  import opened Collections
  import opened Errors
  import opened Rfc822
  import opened Architecture
  import opened Priorities
  import opened Records
  import Numbers
  import RustText

  datatype Collaborators = Collaborators(
    identRead: string -> Result<seq<Identity>, Error>,
    yesNo: string -> Result<bool, Error>,
    joined: seq<string> -> string,
    readDeps: string -> Result<seq<Dependency>, Error>,
    parseFormat: string -> Result<SourceFormat, Error>,
    takePackageList: Map -> Result<Taken<seq<SourceBinary>>, Error>,
    takeFiles: Map -> Result<Taken<seq<SourceArchive>>, Error>,
    extractVcs: Map -> Result<Taken<seq<Vcs>>, Error>)

  datatype Package = Package(
    name: string,
    version: string,
    priority: Priority,
    arches: set<Arch>,
    section: string,
    maintainer: seq<Identity>,
    originalMaintainer: seq<Identity>,
    homepage: Option<string>,
    unparsed: Map,
    style: PackageType<Source, Binary>)

  /** The shared fields `parse_pkg` consumes, whichever the style. */
  const SharedKeys: set<string> := {
    "Architecture", "Original-Maintainer", "Package", "Version",
    "Priority", "Section", "Maintainer", "Homepage"
  }

  /** Shared fields a record cannot do without. */
  const RequiredKeys: set<string> := {
    "Architecture", "Package", "Version", "Priority", "Section", "Maintainer"
  }

  /** The binary dependency relations, in the order `parse_bin` reads them. */
  const BinaryDepKeys: seq<string> := [
    "Depends", "Recommends", "Suggests", "Enhances", "Pre-Depends",
    "Breaks", "Conflicts", "Replaces", "Provides"
  ]

  /** The source build relations, in the order `parse_src` reads them. */
  const SourceDepKeys: seq<string> := [
    "Build-Depends", "Build-Depends-Arch", "Build-Depends-Indep",
    "Build-Conflicts", "Build-Conflicts-Arch", "Build-Conflicts-Indep"
  ]

  const FlagKeys: set<string> := {"Installed-Size", "Essential", "Build-Essential"}

  const TextKeys: set<string> := {"Description", "Source", "Status"}

  /** Every field `parse_bin` consumes. */
  const BinaryKeys: set<string> := FlagKeys + TextKeys + (set k | k in BinaryDepKeys)

  function FieldOrEmpty(m: Map, key: string): seq<string> {
    if key in m then m[key] else []
  }

  predicate Distinct(keys: seq<string>) {
    forall i, j :: 0 <= i < j < |keys| ==> keys[i] != keys[j]
  }

  lemma BinaryDepKeysDistinct()
    ensures Distinct(BinaryDepKeys)
  {
  }

  lemma SourceDepKeysDistinct()
    ensures Distinct(SourceDepKeys)
  {
  }

  /** `parse_dep`: a relation field's lines, joined, read as dependencies. */
  function ParseDep(c: Collaborators, lines: seq<string>): Result<seq<Dependency>, Error> {
    c.readDeps(c.joined(lines))
  }

  /**
   * The relation fields `keys`, each removed (absent ones read as no lines)
   * and parsed in turn; the first failure stops the parse.
   */
  function ParseDepFields(c: Collaborators, m: Map, keys: seq<string>): (r: Result<Taken<seq<seq<Dependency>>>, Error>)
    requires Distinct(keys)
    ensures r.Ok? ==> |r.value.value| == |keys|
    ensures r.Ok? ==> forall i :: 0 <= i < |keys| ==> ParseDep(c, FieldOrEmpty(m, keys[i])) == Ok(r.value.value[i])
    ensures r.Ok? ==> r.value.rest == m - (set k | k in keys)
    ensures (forall i :: 0 <= i < |keys| ==> ParseDep(c, FieldOrEmpty(m, keys[i])).Ok?) ==> r.Ok?
    decreases |keys|
  {
    if |keys| == 0 then
      assert m - (set k | k in keys) == m;
      Ok(Taken([], m))
    else
      var field := RemoveOrEmpty(m, keys[0]);
      var first :- ParseDep(c, field.value);
      var others :- ParseDepFields(c, field.rest, keys[1..]);
      DepFieldStep(m, keys);
      Ok(Taken([first] + others.value, others.rest))
  }

  /** Removing the first field leaves the later ones as they were, and the rest of the fields go after it. */
  lemma DepFieldStep(m: Map, keys: seq<string>)
    requires |keys| > 0 && Distinct(keys)
    ensures Distinct(keys[1..])
    ensures forall i :: 0 <= i < |keys| - 1 ==> FieldOrEmpty(m - {keys[0]}, keys[1..][i]) == FieldOrEmpty(m, keys[i + 1])
    ensures (m - {keys[0]}) - (set k | k in keys[1..]) == m - (set k | k in keys)
  {
    assert (set k | k in keys) == {keys[0]} + (set k | k in keys[1..]);
    SubtractTwice(m, {keys[0]}, set k | k in keys[1..]);
  }

  /** `Installed-Size`: a single-line u64 when present, 0 when absent. */
  function InstalledSize(field: Option<seq<string>>): (r: Result<nat, Error>)
    ensures field.None? ==> r == Ok(0)
    ensures field.Some? && |field.value| == 1 ==> r == Numbers.ParseU64(field.value[0])
    ensures field.Some? && |field.value| != 1 ==> r == Err(NotOneLine(field.value))
  {
    match field
    case None => Ok(0)
    case Some(lines) =>
      var line :- OneLine(lines);
      Numbers.ParseU64(line)
  }

  /** An optional yes/no field: `false` when absent. */
  function Flag(c: Collaborators, line: Option<string>): (r: Result<bool, Error>)
    ensures line.None? ==> r == Ok(false)
    ensures line.Some? ==> r == c.yesNo(line.value)
  {
    match line
    case None => Ok(false)
    case Some(l) => c.yesNo(l)
  }

  function BinaryDeps(b: Binary): seq<seq<Dependency>> {
    [b.depends, b.recommends, b.suggests, b.enhances, b.preDepends,
     b.breaks, b.conflicts, b.replacing, b.providing]
  }

  datatype Flags = Flags(installedSize: nat, essential: bool, buildEssential: bool)

  /** An optional single-line field `key` of `m` reads as `value`: `None` exactly when absent. */
  ghost predicate OptionalLine(m: Map, key: string, value: Option<string>) {
    && (value.Some? <==> key in m)
    && (value.Some? ==> m[key] == [value.value])
  }

  /** What `parse_bin` promises of Installed-Size, Essential and Build-Essential. */
  ghost predicate FlagsRead(c: Collaborators, m: Map, f: Flags) {
    && ("Installed-Size" !in m ==> f.installedSize == 0)
    && ("Installed-Size" in m ==>
          |m["Installed-Size"]| == 1 && Numbers.ParseU64(m["Installed-Size"][0]) == Ok(f.installedSize))
    && ("Essential" !in m ==> !f.essential)
    && ("Essential" in m ==> |m["Essential"]| == 1 && c.yesNo(m["Essential"][0]) == Ok(f.essential))
    && ("Build-Essential" !in m ==> !f.buildEssential)
    && ("Build-Essential" in m ==>
          |m["Build-Essential"]| == 1 && c.yesNo(m["Build-Essential"][0]) == Ok(f.buildEssential))
  }

  /** The first three fields `parse_bin` reads, each optional with a default. */
  function ParseFlags(c: Collaborators, m: Map): (r: Result<Taken<Flags>, Error>)
    ensures r.Ok? ==> FlagsRead(c, m, r.value.value)
    ensures r.Ok? ==> r.value.rest == m - FlagKeys
    ensures forall f :: FlagsRead(c, m, f) ==> r == Ok(Taken(f, m - FlagKeys))
  {
    var size := Remove(m, "Installed-Size");
    var installedSize :- InstalledSize(size.value);
    var essentialField :- RemoveOneLine(size.rest, "Essential");
    var essential :- Flag(c, essentialField.value);
    var buildEssentialField :- RemoveOneLine(essentialField.rest, "Build-Essential");
    var buildEssential :- Flag(c, buildEssentialField.value);
    SubtractTwice(m, {"Installed-Size"}, {"Essential"});
    SubtractTwice(m, {"Installed-Size", "Essential"}, {"Build-Essential"});
    Ok(Taken(Flags(installedSize, essential, buildEssential), buildEssentialField.rest))
  }

  datatype Texts = Texts(description: string, source: Option<string>, status: Option<string>)

  /** What `parse_bin` promises of Description, Source and Status. */
  ghost predicate TextsRead(c: Collaborators, m: Map, t: Texts) {
    && "Description" in m && t.description == c.joined(m["Description"])
    && OptionalLine(m, "Source", t.source)
    && OptionalLine(m, "Status", t.status)
  }

  /** Description (required), then Source and Status (optional single lines). */
  function ParseTexts(c: Collaborators, m: Map): (r: Result<Taken<Texts>, Error>)
    ensures r.Ok? ==> TextsRead(c, m, r.value.value)
    ensures "Description" !in m ==> r == Err(MissingKey("Description"))
    ensures r.Ok? ==> r.value.rest == m - TextKeys
    ensures forall t :: TextsRead(c, m, t) ==> r == Ok(Taken(t, m - TextKeys))
  {
    var description :- TakeErr(m, "Description");
    var source :- RemoveOneLine(description.rest, "Source");
    var status :- RemoveOneLine(source.rest, "Status");
    SubtractTwice(m, {"Description"}, {"Source"});
    SubtractTwice(m, {"Description", "Source"}, {"Status"});
    Ok(Taken(Texts(c.joined(description.value), source.value, status.value), status.rest))
  }

  /** Each relation field of `keys` parses to the matching entry of `deps`. */
  ghost predicate DepsRead(c: Collaborators, m: Map, keys: seq<string>, deps: seq<seq<Dependency>>) {
    && |deps| == |keys|
    && forall i :: 0 <= i < |keys| ==> ParseDep(c, FieldOrEmpty(m, keys[i])) == Ok(deps[i])
  }

  /** What `parse_bin` promises of the binary `b` it reads from `m`. */
  ghost predicate BinaryRead(c: Collaborators, m: Map, b: Binary) {
    && b.file == None
    && FlagsRead(c, m, Flags(b.installedSize, b.essential, b.buildEssential))
    && TextsRead(c, m, Texts(b.description, b.source, b.status))
    && DepsRead(c, m, BinaryDepKeys, BinaryDeps(b))
  }

  /**
   * `parse_bin`: Description is required; Installed-Size defaults to 0 and
   * Essential/Build-Essential to false when absent; the nine relations are
   * read from their fields (absent ones as no lines); every field it reads is
   * consumed and no other.
   */
  function ParseBin(c: Collaborators, m: Map): (r: Result<Taken<Binary>, Error>)
    ensures r.Ok? ==> BinaryRead(c, m, r.value.value)
    ensures r.Ok? ==> r.value.rest == m - BinaryKeys
  {
    var flags :- ParseFlags(c, m);
    var texts :- ParseTexts(c, flags.rest);
    BinaryDepKeysDistinct();
    var deps :- ParseDepFields(c, texts.rest, BinaryDepKeys);
    var b := Assemble(flags.value, texts.value, deps.value);
    BinaryFromParts(c, m, flags.value, texts.value, deps.value, b);
    BinaryRest(m);
    Ok(Taken(b, deps.rest))
  }

  /** The texts and relations are not flag fields, and the relations are not text fields, so each part reads from `m`. */
  lemma BinaryFromParts(c: Collaborators, m: Map, f: Flags, t: Texts, d: seq<seq<Dependency>>, b: Binary)
    requires FlagsRead(c, m, f)
    requires TextsRead(c, m - FlagKeys, t)
    requires DepsRead(c, (m - FlagKeys) - TextKeys, BinaryDepKeys, d)
    requires |d| == 9 && b == Assemble(f, t, d)
    ensures BinaryRead(c, m, b)
  {
    TextsKept(c, m, t);
    DepsKept(c, m, d);
  }

  /** The binary payload from its parts; `parse_bin` never fills `file`. */
  function Assemble(f: Flags, t: Texts, d: seq<seq<Dependency>>): (b: Binary)
    requires |d| == 9
    ensures BinaryDeps(b) == d && b.file == None
    ensures Flags(b.installedSize, b.essential, b.buildEssential) == f
    ensures Texts(b.description, b.source, b.status) == t
  {
    Binary(
      None, f.essential, f.buildEssential, f.installedSize, t.description, t.source, t.status,
      d[0], d[1], d[2], d[3], d[4], d[5], d[6], d[7], d[8])
  }

  lemma TextsKept(c: Collaborators, m: Map, t: Texts)
    ensures TextsRead(c, m - FlagKeys, t) <==> TextsRead(c, m, t)
  {
    assert forall k :: k in TextKeys ==> k !in FlagKeys;
  }

  lemma DepsKept(c: Collaborators, m: Map, d: seq<seq<Dependency>>)
    ensures DepsRead(c, (m - FlagKeys) - TextKeys, BinaryDepKeys, d) <==> DepsRead(c, m, BinaryDepKeys, d)
  {
    assert forall k :: k in BinaryDepKeys ==> k !in FlagKeys + TextKeys;
    SubtractTwice(m, FlagKeys, TextKeys);
  }

  /**
   * `BinaryRead` pins the parse down: the binary it describes is exactly what
   * `parse_bin` returns, and exactly its fields are consumed.
   */
  lemma ParseBinComplete(c: Collaborators, m: Map, b: Binary)
    requires BinaryRead(c, m, b)
    ensures ParseBin(c, m) == Ok(Taken(b, m - BinaryKeys))
  {
    var f := Flags(b.installedSize, b.essential, b.buildEssential);
    var t := Texts(b.description, b.source, b.status);
    FlagsThenTexts(c, m, f, t);
    BinaryDepsComplete(c, m, BinaryDeps(b));
    assert Assemble(f, t, BinaryDeps(b)) == b;
  }

  lemma FlagsThenTexts(c: Collaborators, m: Map, f: Flags, t: Texts)
    requires FlagsRead(c, m, f) && TextsRead(c, m, t)
    ensures ParseFlags(c, m) == Ok(Taken(f, m - FlagKeys))
    ensures ParseTexts(c, m - FlagKeys) == Ok(Taken(t, (m - FlagKeys) - TextKeys))
  {
    TextsKept(c, m, t);
  }

  lemma BinaryDepsComplete(c: Collaborators, m: Map, d: seq<seq<Dependency>>)
    requires DepsRead(c, m, BinaryDepKeys, d)
    ensures Distinct(BinaryDepKeys)
    ensures ParseDepFields(c, (m - FlagKeys) - TextKeys, BinaryDepKeys) == Ok(Taken(d, m - BinaryKeys))
  {
    DepsKept(c, m, d);
    BinaryDepKeysDistinct();
    DepFieldsComplete(c, (m - FlagKeys) - TextKeys, BinaryDepKeys, d);
    BinaryRest(m);
  }

  lemma BinaryRest(m: Map)
    ensures ((m - FlagKeys) - TextKeys) - (set k | k in BinaryDepKeys) == m - BinaryKeys
  {
    SubtractTwice(m, FlagKeys, TextKeys);
    SubtractTwice(m, FlagKeys + TextKeys, set k | k in BinaryDepKeys);
  }

  /** An optional identity list: empty when the field is absent. */
  function Identities(c: Collaborators, line: Option<string>): (r: Result<seq<Identity>, Error>)
    ensures line.None? ==> r == Ok([])
    ensures line.Some? ==> r == c.identRead(line.value)
  {
    match line
    case None => Ok([])
    case Some(l) => c.identRead(l)
  }

  /** The fields `parse_src` consumes itself, after the `src` and `vcs` helpers have run. */
  const SourceTailKeys: set<string> := {"Standards-Version", "Uploaders"} + (set k | k in SourceDepKeys)

  function SourceDeps(s: Source): seq<seq<Dependency>> {
    [s.buildDep, s.buildDepArch, s.buildDepIndep, s.buildConflict, s.buildConflictArch, s.buildConflictIndep]
  }

  /** The fields `parse_src` reads up to Standards-Version, in its order. */
  datatype SourceHead = SourceHead(
    format: SourceFormat,
    binaries: seq<SourceBinary>,
    files: seq<SourceArchive>,
    directory: string,
    vcs: seq<Vcs>,
    standardsVersion: string)

  /**
   * What `parse_src` promises of its first six fields: each is read from the
   * map the previous step left. Format, Directory and Standards-Version are
   * single lines taken out of the map; the Package-List, file and Vcs fields
   * are whatever the helpers return, and each helper hands on the map it
   * leaves. `rest` is the map after Standards-Version.
   */
  ghost predicate HeadRead(c: Collaborators, m: Map, h: SourceHead, rest: Map) {
    && "Format" in m && |m["Format"]| == 1
    && c.parseFormat(m["Format"][0]) == Ok(h.format)
    && c.takePackageList(m - {"Format"}).Ok?
    && var list := c.takePackageList(m - {"Format"}).value;
       && list.value == h.binaries
       && c.takeFiles(list.rest).Ok?
       && var files := c.takeFiles(list.rest).value;
          && files.value == h.files
          && "Directory" in files.rest && files.rest["Directory"] == [h.directory]
          && c.extractVcs(files.rest - {"Directory"}).Ok?
          && var vcs := c.extractVcs(files.rest - {"Directory"}).value;
             && vcs.value == h.vcs
             && "Standards-Version" in vcs.rest && vcs.rest["Standards-Version"] == [h.standardsVersion]
             && rest == vcs.rest - {"Standards-Version"}
  }

  /** The fields `parse_src` reads after Standards-Version. */
  const TailKeys: set<string> := {"Uploaders"} + (set k | k in SourceDepKeys)

  /**
   * What `parse_src` promises of the six build relations and Uploaders, read
   * from the map `m` that the first six fields left: each relation is
   * `parse_dep` of its lines (none when absent), Uploaders is an optional
   * single line read by `ident::read`, and exactly these fields are consumed.
   */
  ghost predicate TailRead(c: Collaborators, m: Map, deps: seq<seq<Dependency>>, uploaders: seq<Identity>, rest: Map) {
    && DepsRead(c, m, SourceDepKeys, deps)
    && ("Uploaders" in m ==> |m["Uploaders"]| == 1)
    && Identities(c, if "Uploaders" in m then Some(m["Uploaders"][0]) else None) == Ok(uploaders)
    && rest == m - TailKeys
  }

  function HeadOf(s: Source): SourceHead {
    SourceHead(s.format, s.binaries, s.files, s.directory, s.vcs, s.standardsVersion)
  }

  /** What `parse_src` promises of the source `s` it reads from `m`, leaving `rest`. */
  ghost predicate SourceRead(c: Collaborators, m: Map, s: Source, rest: Map) {
    exists mid :: HeadRead(c, m, HeadOf(s), mid) && TailRead(c, mid, SourceDeps(s), s.uploaders, rest)
  }

  /** The first six fields of `parse_src`; a missing Format is the first failure. */
  function ParseSrcHead(c: Collaborators, m: Map): (r: Result<Taken<SourceHead>, Error>)
    ensures r.Ok? ==> HeadRead(c, m, r.value.value, r.value.rest)
    ensures "Format" !in m ==> r == Err(MissingKey("Format"))
  {
    var formatLine :- TakeOneLine(m, "Format");
    var format :- c.parseFormat(formatLine.value);
    var binaries :- c.takePackageList(formatLine.rest);
    var files :- c.takeFiles(binaries.rest);
    var directory :- TakeOneLine(files.rest, "Directory");
    var vcs :- c.extractVcs(directory.rest);
    var standards :- TakeOneLine(vcs.rest, "Standards-Version");
    Ok(Taken(SourceHead(format, binaries.value, files.value, directory.value, vcs.value, standards.value),
             standards.rest))
  }

  /** The build relations, then Uploaders. */
  function ParseSrcTail(c: Collaborators, m: Map): (r: Result<Taken<(seq<seq<Dependency>>, seq<Identity>)>, Error>)
    ensures r.Ok? ==> TailRead(c, m, r.value.value.0, r.value.value.1, r.value.rest)
    ensures r.Ok? ==> |r.value.value.0| == 6
  {
    SourceDepKeysDistinct();
    var deps :- ParseDepFields(c, m, SourceDepKeys);
    var uploadersLine :- RemoveOneLine(deps.rest, "Uploaders");
    var uploaders :- Identities(c, uploadersLine.value);
    UploadersKept(m);
    Ok(Taken((deps.value, uploaders), uploadersLine.rest))
  }

  /** Uploaders is not a build relation, so reading it after them reads it from `m`. */
  lemma UploadersKept(m: Map)
    ensures "Uploaders" in m - (set k | k in SourceDepKeys) <==> "Uploaders" in m
    ensures "Uploaders" in m ==> (m - (set k | k in SourceDepKeys))["Uploaders"] == m["Uploaders"]
    ensures (m - (set k | k in SourceDepKeys)) - {"Uploaders"} == m - TailKeys
  {
    assert "Uploaders" !in (set k | k in SourceDepKeys);
    SubtractTwice(m, set k | k in SourceDepKeys, {"Uploaders"});
    assert (set k | k in SourceDepKeys) + {"Uploaders"} == TailKeys;
  }

  /**
   * `parse_src`: Format, Directory and Standards-Version are required single
   * lines; the Package-List, file list and Vcs fields go to their helpers;
   * the six build relations and Uploaders are optional.
   */
  function ParseSrc(c: Collaborators, m: Map): (r: Result<Taken<Source>, Error>)
    ensures "Format" !in m ==> r == Err(MissingKey("Format"))
    ensures r.Ok? ==> SourceRead(c, m, r.value.value, r.value.rest)
    ensures r.Ok? ==> forall k :: k in SourceTailKeys ==> k !in r.value.rest
    ensures r.Ok? && Conservative(c) ==> r.value.rest.Keys <= m.Keys
  {
    var head :- ParseSrcHead(c, m);
    var tail :- ParseSrcTail(c, head.rest);
    var s := AssembleSource(head.value, tail.value.0, tail.value.1);
    SourceFromParts(c, m, head.rest, tail.rest, s);
    SourceRestKeys(c, m, head.value, head.rest, tail.rest);
    Ok(Taken(s, tail.rest))
  }

  /** The source payload from its parts. */
  function AssembleSource(h: SourceHead, d: seq<seq<Dependency>>, uploaders: seq<Identity>): (s: Source)
    requires |d| == 6
    ensures HeadOf(s) == h && SourceDeps(s) == d && s.uploaders == uploaders
  {
    Records.Source(h.format, h.binaries, h.files, h.vcs, h.directory, h.standardsVersion,
                   d[0], d[1], d[2], d[3], d[4], d[5], uploaders)
  }

  lemma SourceFromParts(c: Collaborators, m: Map, mid: Map, rest: Map, s: Source)
    requires HeadRead(c, m, HeadOf(s), mid) && TailRead(c, mid, SourceDeps(s), s.uploaders, rest)
    ensures SourceRead(c, m, s, rest)
  {
  }

  /** Nothing `parse_src` reads itself is left, and with consuming helpers nothing is added. */
  lemma SourceRestKeys(c: Collaborators, m: Map, h: SourceHead, mid: Map, rest: Map)
    requires HeadRead(c, m, h, mid) && rest == mid - TailKeys
    ensures forall k :: k in SourceTailKeys ==> k !in rest
    ensures Conservative(c) ==> rest.Keys <= m.Keys
  {
    assert SourceTailKeys == {"Standards-Version"} + TailKeys;
    if Conservative(c) {
      var list := c.takePackageList(m - {"Format"}).value;
      var files := c.takeFiles(list.rest).value;
      var vcs := c.extractVcs(files.rest - {"Directory"}).value;
      assert list.rest.Keys <= (m - {"Format"}).Keys;
      assert files.rest.Keys <= list.rest.Keys;
      assert vcs.rest.Keys <= (files.rest - {"Directory"}).Keys;
    }
  }

  /**
   * `SourceRead` pins the parse down: whatever source and rest it describes
   * are exactly what `parse_src` returns.
   */
  lemma ParseSrcComplete(c: Collaborators, m: Map, s: Source, rest: Map)
    requires SourceRead(c, m, s, rest)
    ensures ParseSrc(c, m) == Ok(Taken(s, rest))
  {
    var mid :| HeadRead(c, m, HeadOf(s), mid) && TailRead(c, mid, SourceDeps(s), s.uploaders, rest);
    HeadComplete(c, m, HeadOf(s), mid);
    TailComplete(c, mid, SourceDeps(s), s.uploaders, rest);
  }

  lemma HeadComplete(c: Collaborators, m: Map, h: SourceHead, mid: Map)
    requires HeadRead(c, m, h, mid)
    ensures ParseSrcHead(c, m) == Ok(Taken(h, mid))
  {
  }

  lemma TailComplete(c: Collaborators, m: Map, deps: seq<seq<Dependency>>, uploaders: seq<Identity>, rest: Map)
    requires TailRead(c, m, deps, uploaders, rest)
    ensures ParseSrcTail(c, m) == Ok(Taken((deps, uploaders), rest))
  {
    SourceDepKeysDistinct();
    DepFieldsComplete(c, m, SourceDepKeys, deps);
    UploadersKept(m);
  }

  /** Relations that each parse are read by `ParseDepFields` to exactly those values. */
  lemma DepFieldsComplete(c: Collaborators, m: Map, keys: seq<string>, deps: seq<seq<Dependency>>)
    requires Distinct(keys) && DepsRead(c, m, keys, deps)
    ensures ParseDepFields(c, m, keys) == Ok(Taken(deps, m - (set k | k in keys)))
  {
    assert forall i :: 0 <= i < |keys| ==> ParseDep(c, FieldOrEmpty(m, keys[i])).Ok?;
    var r := ParseDepFields(c, m, keys).value;
    assert |r.value| == |deps|;
    assert forall i :: 0 <= i < |keys| ==> r.value[i] == deps[i];
    assert r.value == deps;
    assert r.rest == m - (set k | k in keys);
  }

  /** What `parse_pkg` promises of the shared fields of `m` in the package `p`. */
  ghost predicate SharedRead(c: Collaborators, m: Map, p: Package) {
    && (forall k :: k in RequiredKeys ==> k in m && |m[k]| == 1)
    && ParseArches(m["Architecture"][0]) == Ok(p.arches)
    && ("Original-Maintainer" in m ==> |m["Original-Maintainer"]| == 1)
    && Identities(c, if "Original-Maintainer" in m then Some(m["Original-Maintainer"][0]) else None)
         == Ok(p.originalMaintainer)
    && p.name == m["Package"][0]
    && p.version == m["Version"][0]
    && ParsePriority(m["Priority"][0]) == Ok(p.priority)
    && p.section == m["Section"][0]
    && c.identRead(m["Maintainer"][0]) == Ok(p.maintainer)
    && OptionalLine(m, "Homepage", p.homepage)
  }

  /** The two shared fields `parse_pkg` reads before it builds the package. */
  datatype Lead = Lead(arches: set<Arch>, originalMaintainer: seq<Identity>)

  const LeadKeys: set<string> := {"Architecture", "Original-Maintainer"}

  ghost predicate LeadRead(c: Collaborators, m: Map, l: Lead) {
    && "Architecture" in m && |m["Architecture"]| == 1
    && ParseArches(m["Architecture"][0]) == Ok(l.arches)
    && ("Original-Maintainer" in m ==> |m["Original-Maintainer"]| == 1)
    && Identities(c, if "Original-Maintainer" in m then Some(m["Original-Maintainer"][0]) else None)
         == Ok(l.originalMaintainer)
  }

  /** Architecture (required, split on whitespace), then Original-Maintainer (optional). */
  function ParseLead(c: Collaborators, m: Map): (r: Result<Taken<Lead>, Error>)
    ensures r.Ok? ==> LeadRead(c, m, r.value.value)
    ensures r.Ok? ==> r.value.rest == m - LeadKeys
    ensures "Architecture" !in m ==> r == Err(MissingKey("Architecture"))
    ensures forall l :: LeadRead(c, m, l) ==> r == Ok(Taken(l, m - LeadKeys))
  {
    var archLine :- TakeOneLine(m, "Architecture");
    var arches :- ParseArches(archLine.value);
    var origLine :- RemoveOneLine(archLine.rest, "Original-Maintainer");
    var orig :- Identities(c, origLine.value);
    SubtractTwice(m, {"Architecture"}, {"Original-Maintainer"});
    Ok(Taken(Lead(arches, orig), origLine.rest))
  }

  /** The shared fields `parse_pkg` reads while it builds the package. */
  datatype Named = Named(
    name: string, version: string, priority: Priority, section: string,
    maintainer: seq<Identity>, homepage: Option<string>)

  const NamedKeys: set<string> := {"Package", "Version", "Priority", "Section", "Maintainer", "Homepage"}

  ghost predicate NamedRead(c: Collaborators, m: Map, n: Named) {
    && TitleRead(m, Title(n.name, n.version, n.priority))
    && OwnerRead(c, m, Owner(n.section, n.maintainer, n.homepage))
  }

  /** The fields that name the package: Package, Version and Priority. */
  datatype Title = Title(name: string, version: string, priority: Priority)

  const TitleKeys: set<string> := {"Package", "Version", "Priority"}

  ghost predicate TitleRead(m: Map, t: Title) {
    && "Package" in m && m["Package"] == [t.name]
    && "Version" in m && m["Version"] == [t.version]
    && "Priority" in m && |m["Priority"]| == 1 && ParsePriority(m["Priority"][0]) == Ok(t.priority)
  }

  /** Package, Version and Priority, each a required single line; the priority is parsed. */
  function ParseTitle(m: Map): (r: Result<Taken<Title>, Error>)
    ensures r.Ok? ==> TitleRead(m, r.value.value) && r.value.rest == m - TitleKeys
    ensures forall t :: TitleRead(m, t) ==> r == Ok(Taken(t, m - TitleKeys))
  {
    var name :- TakeOneLine(m, "Package");
    var version :- TakeOneLine(name.rest, "Version");
    var priorityLine :- TakeOneLine(version.rest, "Priority");
    var priority :- ParsePriority(priorityLine.value);
    TitleRest(m);
    Ok(Taken(Title(name.value, version.value, priority), priorityLine.rest))
  }

  lemma TitleRest(m: Map)
    ensures ((m - {"Package"}) - {"Version"}) - {"Priority"} == m - TitleKeys
  {
    assert (((m - {"Package"}) - {"Version"}) - {"Priority"}).Keys == (m - TitleKeys).Keys;
  }

  /** The fields that say who looks after the package: Section, Maintainer and Homepage. */
  datatype Owner = Owner(section: string, maintainer: seq<Identity>, homepage: Option<string>)

  const OwnerKeys: set<string> := {"Section", "Maintainer", "Homepage"}

  ghost predicate OwnerRead(c: Collaborators, m: Map, o: Owner) {
    && "Section" in m && m["Section"] == [o.section]
    && "Maintainer" in m && |m["Maintainer"]| == 1 && c.identRead(m["Maintainer"][0]) == Ok(o.maintainer)
    && OptionalLine(m, "Homepage", o.homepage)
  }

  /** Section and Maintainer (required single lines, the maintainer parsed), then Homepage (optional). */
  function ParseOwner(c: Collaborators, m: Map): (r: Result<Taken<Owner>, Error>)
    ensures r.Ok? ==> OwnerRead(c, m, r.value.value) && r.value.rest == m - OwnerKeys
    ensures forall o :: OwnerRead(c, m, o) ==> r == Ok(Taken(o, m - OwnerKeys))
  {
    var section :- TakeOneLine(m, "Section");
    var maintainerLine :- TakeOneLine(section.rest, "Maintainer");
    var maintainer :- c.identRead(maintainerLine.value);
    var homepage :- RemoveOneLine(maintainerLine.rest, "Homepage");
    OwnerRest(m);
    Ok(Taken(Owner(section.value, maintainer, homepage.value), homepage.rest))
  }

  lemma OwnerRest(m: Map)
    ensures ((m - {"Section"}) - {"Maintainer"}) - {"Homepage"} == m - OwnerKeys
  {
    assert (((m - {"Section"}) - {"Maintainer"}) - {"Homepage"}).Keys == (m - OwnerKeys).Keys;
  }

  /** The owner fields are not title fields, so reading them after the title is reading them from `m`. */
  lemma OwnerAfterTitle(c: Collaborators, m: Map)
    ensures forall o :: OwnerRead(c, m - TitleKeys, o) <==> OwnerRead(c, m, o)
  {
    assert forall k :: k in OwnerKeys ==> k !in TitleKeys;
  }

  /** Package, Version, Priority, Section and Maintainer (required), then Homepage (optional). */
  function ParseNamed(c: Collaborators, m: Map): (r: Result<Taken<Named>, Error>)
    ensures r.Ok? ==> NamedRead(c, m, r.value.value)
    ensures r.Ok? ==> r.value.rest == m - NamedKeys
    ensures forall n :: NamedRead(c, m, n) ==> r == Ok(Taken(n, m - NamedKeys))
  {
    OwnerAfterTitle(c, m);
    var title :- ParseTitle(m);
    var owner :- ParseOwner(c, title.rest);
    NamedRest(m);
    var t, o := title.value, owner.value;
    Ok(Taken(Named(t.name, t.version, t.priority, o.section, o.maintainer, o.homepage), owner.rest))
  }

  lemma NamedRest(m: Map)
    ensures (m - TitleKeys) - OwnerKeys == m - NamedKeys
  {
    SubtractTwice(m, TitleKeys, OwnerKeys);
    assert TitleKeys + OwnerKeys == NamedKeys;
  }

  /**
   * `parse_pkg`: the shared fields, read in the source's order, with every
   * field it does not consume kept verbatim in `unparsed`.
   */
  function ParsePkg(c: Collaborators, m: Map, style: PackageType<Source, Binary>): (r: Result<Package, Error>)
    ensures r.Ok? ==> SharedRead(c, m, r.value)
    ensures r.Ok? ==> r.value.unparsed == m - SharedKeys
    ensures r.Ok? ==> r.value.style == style
    ensures "Architecture" !in m ==> r == Err(MissingKey("Architecture"))
  {
    var lead :- ParseLead(c, m);
    var named :- ParseNamed(c, lead.rest);
    var l, n := lead.value, named.value;
    var p := Package(n.name, n.version, n.priority, l.arches, n.section, n.maintainer, l.originalMaintainer,
                     n.homepage, named.rest, style);
    SharedFromParts(c, m, l, n, p);
    SharedRest(m);
    Ok(p)
  }

  /** The named fields are not among the lead ones, so reading them after the lead is reading them from `m`. */
  lemma SharedFromParts(c: Collaborators, m: Map, l: Lead, n: Named, p: Package)
    requires LeadRead(c, m, l) && NamedRead(c, m - LeadKeys, n)
    requires p.arches == l.arches && p.originalMaintainer == l.originalMaintainer
    requires p.name == n.name && p.version == n.version && p.priority == n.priority
    requires p.section == n.section && p.maintainer == n.maintainer && p.homepage == n.homepage
    ensures SharedRead(c, m, p)
  {
    assert forall k :: k in NamedKeys ==> k !in LeadKeys;
  }

  /**
   * `SharedRead` pins the shared fields down: the package it describes, with
   * the rest of the map as `unparsed`, is exactly what `parse_pkg` builds.
   */
  lemma ParsePkgComplete(c: Collaborators, m: Map, p: Package)
    requires SharedRead(c, m, p) && p.unparsed == m - SharedKeys
    ensures ParsePkg(c, m, p.style) == Ok(p)
  {
    var l := Lead(p.arches, p.originalMaintainer);
    var n := Named(p.name, p.version, p.priority, p.section, p.maintainer, p.homepage);
    assert LeadRead(c, m, l);
    assert forall k :: k in NamedKeys ==> k !in LeadKeys;
    assert NamedRead(c, m - LeadKeys, n);
    SharedRest(m);
  }

  lemma SharedRest(m: Map)
    ensures (m - LeadKeys) - NamedKeys == m - SharedKeys
  {
    SubtractTwice(m, LeadKeys, NamedKeys);
    assert LeadKeys + NamedKeys == SharedKeys;
  }

  /**
   * `Package::parse`: a record with a Binary field is a source package and
   * is read by `parse_src`; any other is a binary package read by
   * `parse_bin`; the shared fields are read from what the style parser left.
   */
  function Parse(c: Collaborators, m: Map): (r: Result<Package, Error>)
    ensures r.Ok? ==> (r.value.style.SourceStyle? <==> "Binary" in m)
    ensures r.Ok? && "Binary" in m ==>
      ParseSrc(c, m).Ok? && r.value.style == SourceStyle(ParseSrc(c, m).value.value)
      && SharedRead(c, ParseSrc(c, m).value.rest, r.value)
      && r.value.unparsed == ParseSrc(c, m).value.rest - SharedKeys
    ensures r.Ok? && "Binary" !in m ==>
      ParseBin(c, m).Ok? && r.value.style == BinaryStyle(ParseBin(c, m).value.value)
      && SharedRead(c, ParseBin(c, m).value.rest, r.value)
      && r.value.unparsed == m - BinaryKeys - SharedKeys
    ensures "Binary" in m && ParseSrc(c, m).Err? ==> r == Err(ParseSrc(c, m).error)
    ensures "Binary" !in m && ParseBin(c, m).Err? ==> r == Err(ParseBin(c, m).error)
  {
    if "Binary" in m then
      var source :- ParseSrc(c, m);
      ParsePkg(c, source.rest, SourceStyle(source.value))
    else
      var binary :- ParseBin(c, m);
      ParsePkg(c, binary.rest, BinaryStyle(binary.value))
  }

  /**
   * A binary record whose binary and shared fields read as `b` and `p` parses
   * to exactly `p`.
   */
  lemma ParseBinaryRecordComplete(c: Collaborators, m: Map, b: Binary, p: Package)
    requires "Binary" !in m && BinaryRead(c, m, b)
    requires SharedRead(c, m - BinaryKeys, p) && p.unparsed == m - BinaryKeys - SharedKeys
    requires p.style == BinaryStyle(b)
    ensures Parse(c, m) == Ok(p)
  {
    ParseBinComplete(c, m, b);
    ParsePkgComplete(c, m - BinaryKeys, p);
  }

  /**
   * A source record whose source fields read as `s`, leaving `rest`, and
   * whose shared fields in `rest` read as `p`, parses to exactly `p`.
   */
  lemma ParseSourceRecordComplete(c: Collaborators, m: Map, s: Source, rest: Map, p: Package)
    requires "Binary" in m && SourceRead(c, m, s, rest)
    requires SharedRead(c, rest, p) && p.unparsed == rest - SharedKeys
    requires p.style == SourceStyle(s)
    ensures Parse(c, m) == Ok(p)
  {
    ParseSrcComplete(c, m, s, rest);
    ParsePkgComplete(c, rest, p);
  }

  /**
   * The source helpers only consume fields: the map they hand back has no
   * field the one they were given lacked. Their code is not part of this
   * model; lemmas that need this say so.
   */
  ghost predicate Conservative(c: Collaborators) {
    && (forall m :: c.takePackageList(m).Ok? ==> c.takePackageList(m).value.rest.Keys <= m.Keys)
    && (forall m :: c.takeFiles(m).Ok? ==> c.takeFiles(m).value.rest.Keys <= m.Keys)
    && (forall m :: c.extractVcs(m).Ok? ==> c.extractVcs(m).value.rest.Keys <= m.Keys)
  }

  /**
   * Architecture, Package, Version, Priority, Section and Maintainer are all
   * required in this generation: a record missing one does not parse (for a
   * source record, given helpers that only consume fields).
   */
  lemma MissingRequiredFieldFails(c: Collaborators, m: Map, key: string)
    requires key in RequiredKeys && key !in m
    requires "Binary" in m ==> Conservative(c)
    ensures Parse(c, m).Err?
  {
  }

  /** A parsed binary record takes the documented defaults for absent optional fields. */
  lemma BinaryDefaults(c: Collaborators, m: Map)
    requires "Binary" !in m && Parse(c, m).Ok?
    ensures Parse(c, m).value.style.BinaryStyle?
    ensures "Installed-Size" !in m ==> Parse(c, m).value.style.binary.installedSize == 0
    ensures "Essential" !in m ==> !Parse(c, m).value.style.binary.essential
    ensures "Build-Essential" !in m ==> !Parse(c, m).value.style.binary.buildEssential
    ensures "Description" in m
  {
    var b := ParseBin(c, m).value.value;
    assert BinaryRead(c, m, b);
    assert FlagsRead(c, m, Flags(b.installedSize, b.essential, b.buildEssential));
  }

  /** A parsed package never holds the `ParserBug` sentinel. */
  lemma ParsedArchesPrintable(c: Collaborators, m: Map)
    requires Parse(c, m).Ok?
    ensures ParserBug !in Parse(c, m).value.arches
  {
  }

  /** The one element of a singleton set. */
  function TheArch(s: set<Arch>): (a: Arch)
    requires |s| == 1
    ensures s == {a}
  {
    var a :| a in s;
    assert |s - {a}| == 0;
    a
  }

  /**
   * `impl Display for Package`: `name=version` without architectures,
   * `name:arch=version` with one, and a formatting error if that one is the
   * sentinel. Two or more architectures reach `unimplemented!`, which the
   * caller must avoid.
   */
  function ShowPackage(p: Package): (r: Result<string, FmtError>)
    requires |p.arches| <= 1
    ensures |p.arches| == 0 ==> r == Ok(p.name + "=" + p.version)
    ensures forall a :: a in p.arches ==> (r.Ok? <==> a != ParserBug)
    ensures forall a :: a in p.arches && r.Ok? ==> r.value == p.name + ":" + ShowArch(a).value + "=" + p.version
  {
    if |p.arches| == 0 then Ok(p.name + "=" + p.version)
    else
      var a := TheArch(p.arches);
      var shown :- ShowArch(a);
      Ok(p.name + ":" + shown + "=" + p.version)
  }

  /**
   * A record whose Architecture field is one vocabulary token prints as
   * `name:token=version`, with the Package and Version fields it was read from.
   */
  lemma ShowSingleArchPackage(c: Collaborators, m: Map, token: string)
    requires "Binary" !in m && Parse(c, m).Ok?
    requires "Architecture" in m && m["Architecture"] == [token] && token in Vocabulary
    ensures |Parse(c, m).value.arches| == 1
    ensures ShowPackage(Parse(c, m).value) == Ok(m["Package"][0] + ":" + token + "=" + m["Version"][0])
  {
    ParsedBinaryFields(c, m);
    ParseArchIffVocabulary(token);
    ParseArchesSingle(token);
    ShowOneArch(Parse(c, m).value, token);
  }

  /** A package whose one architecture was parsed from `token` prints `token` between name and version. */
  lemma ShowOneArch(p: Package, token: string)
    requires ParseArch(token).Ok? && p.arches == {ParseArch(token).value}
    ensures |p.arches| == 1
    ensures ShowPackage(p) == Ok(p.name + ":" + token + "=" + p.version)
  {
  }

  /** A parsed binary record's name, version and architectures come from the record's own fields. */
  lemma ParsedBinaryFields(c: Collaborators, m: Map)
    requires "Binary" !in m && Parse(c, m).Ok?
    ensures "Architecture" in m && "Package" in m && "Version" in m
    ensures |m["Architecture"]| == 1 && ParseArches(m["Architecture"][0]) == Ok(Parse(c, m).value.arches)
    ensures |m["Package"]| == 1 && Parse(c, m).value.name == m["Package"][0]
    ensures |m["Version"]| == 1 && Parse(c, m).value.version == m["Version"][0]
  {
    var rest := ParseBin(c, m).value.rest;
    assert SharedRead(c, rest, Parse(c, m).value);
    SharedNotBinary();
  }

  lemma SharedNotBinary()
    ensures forall k :: k in SharedKeys ==> k !in BinaryKeys
  {
  }
}
