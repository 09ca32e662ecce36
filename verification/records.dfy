/**
 * The typed entities a package record is parsed into (src/parse/types.rs:17-290).
 * They are plain values; the parsers that fill them live in `LegacyPackage`
 * and `Packages`.
 */
module Records {
  import opened Results
  import Architecture
  import opened Versions
  import opened Priorities

  /** A "Name <email>" entry of Maintainer, Original-Maintainer or Uploaders. */
  datatype Identity = Identity(name: string, email: string)

  /** All constraints of an alternative must hold together (src/parse/types.rs:97-105). */
  datatype SingleDependency = SingleDependency(
    package: string,
    arch: Option<Architecture.Arch>,
    versionConstraints: seq<Constraint>,
    archFilter: set<Architecture.Arch>,
    stageFilter: seq<string>)

  /** An OR-group of alternatives (src/parse/types.rs:92-95). */
  datatype Dependency = Dependency(alternate: seq<SingleDependency>)

  datatype SourceFormat = Original | Quilt3dot0 | Native3dot0 | Git3dot0

  datatype VcsType = Browser | Arch | Bzr | Cvs | Darcs | Git | Hg | Mtn | Svn

  datatype VcsTag = Vcs | Orig | Debian | Upstream

  datatype Vcs = Vcs(description: string, vcs: VcsType, tag: VcsTag)

  /** One line of a source package's Package-List. */
  datatype SourceBinary = SourceBinary(
    name: string, style: string, section: string, priority: Priority, extras: seq<string>)

  datatype File = File(
    name: string, size: nat, md5: string, sha1: string, sha256: string, sha512: string)

  /**
   * One entry of a source package's file list, as `src::take_files` returns
   * it; that function is not part of this model, so the entry is carried
   * through unexamined.
   */
  datatype SourceArchive = SourceArchive(name: string, size: nat, checksums: seq<string>)

  /** Build-recipe metadata of a source package (src/parse/types.rs:42-61). */
  datatype Source = Source(
    format: SourceFormat,
    binaries: seq<SourceBinary>,
    files: seq<SourceArchive>,
    vcs: seq<Vcs>,
    directory: string,
    standardsVersion: string,
    buildDep: seq<Dependency>,
    buildDepArch: seq<Dependency>,
    buildDepIndep: seq<Dependency>,
    buildConflict: seq<Dependency>,
    buildConflictArch: seq<Dependency>,
    buildConflictIndep: seq<Dependency>,
    uploaders: seq<Identity>)

  /** Installable metadata of a binary package (src/parse/types.rs:63-88). */
  datatype Binary = Binary(
    file: Option<File>,
    essential: bool,
    buildEssential: bool,
    installedSize: nat,
    description: string,
    source: Option<string>,
    status: Option<string>,
    depends: seq<Dependency>,
    recommends: seq<Dependency>,
    suggests: seq<Dependency>,
    enhances: seq<Dependency>,
    preDepends: seq<Dependency>,
    breaks: seq<Dependency>,
    conflicts: seq<Dependency>,
    replacing: seq<Dependency>,   // Replaces (`replaces` and `provides` are Dafny keywords)
    providing: seq<Dependency>)   // Provides

  /** Exactly one of the two styles (src/parse/types.rs:17-22, src/parse/pkg.rs:18-23). */
  datatype PackageType<S, B> = SourceStyle(source: S) | BinaryStyle(binary: B)
}
