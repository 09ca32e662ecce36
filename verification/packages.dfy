/**
 * The newer package parser (src/parse/pkg.rs): the shared fields are read
 * eagerly, while Priority and Section stay in `unparsed` until the lazy
 * accessors `priority()` and `section()` read and cache them.
 */
module Packages {
  import opened Results
  import opened Errors
  import opened Rfc822
  import opened Architecture
  import opened Priorities
  import Records

  /**
   * Helpers of this generation whose code is not part of this model:
   * `ident::read`, `src::parse_src` and `bin::parse_bin`. The style parsers
   * consume the fields they understand and hand back the rest of the map.
   */
  datatype Collaborators<S, B> = Collaborators(
    identRead: string -> Result<seq<Records.Identity>, Error>,
    parseSrc: Map -> Result<Taken<S>, Error>,
    parseBin: Map -> Result<Taken<B>, Error>)

  /**
   * `Package` (src/parse/pkg.rs:26-42). `priority` and `section` are the
   * private caches of the lazy accessors.
   */
  datatype Package<S, B> = Package(
    name: string,
    version: string,
    priority: Option<Priority>,
    arches: set<Arch>,
    section: Option<string>,
    maintainer: seq<Records.Identity>,
    originalMaintainer: seq<Records.Identity>,
    homepage: Option<string>,
    unparsed: Map,
    style: Records.PackageType<S, B>)

  /** The fields `parse_pkg` consumes. */
  const PkgKeys: set<string> :=
    {"Architecture", "Original-Maintainer", "Package", "Version", "Maintainer", "Homepage"}

  /**
   * A cached value has left `unparsed`: a field is read at most once, so
   * the cache and the raw field never both hold it.
   */
  ghost predicate Consistent<S, B>(p: Package<S, B>) {
    && (p.priority.Some? ==> "Priority" !in p.unparsed)
    && (p.section.Some? ==> "Section" !in p.unparsed)
  }

  /** What `parse_pkg` promises of the fields of `m` in the package `p`. */
  ghost predicate PkgRead<S, B>(c: Collaborators<S, B>, m: Map, p: Package<S, B>) {
    && "Architecture" in m && |m["Architecture"]| == 1
    && "Package" in m && |m["Package"]| == 1
    && "Version" in m && |m["Version"]| == 1
    && "Maintainer" in m && |m["Maintainer"]| == 1
    && ParseArches(m["Architecture"][0]) == Ok(p.arches)
    && ("Original-Maintainer" in m ==>
          |m["Original-Maintainer"]| == 1 && c.identRead(m["Original-Maintainer"][0]) == Ok(p.originalMaintainer))
    && ("Original-Maintainer" !in m ==> p.originalMaintainer == [])
    && p.name == m["Package"][0]
    && p.version == m["Version"][0]
    && c.identRead(m["Maintainer"][0]) == Ok(p.maintainer)
    && ("Homepage" in m ==> |m["Homepage"]| == 1 && p.homepage == Some(m["Homepage"][0]))
    && ("Homepage" !in m ==> p.homepage == None)
  }

  /**
   * `parse_pkg`: the shared fields in the source's order. Only errors from
   * the architecture tokens carry the "reading Architecture" context; the
   * rest of the map becomes `unparsed` verbatim, and both caches start empty.
   */
  function ParsePkg<S, B>(c: Collaborators<S, B>, m: Map, style: Records.PackageType<S, B>)
    : (r: Result<Package<S, B>, Error>)
    ensures r.Ok? ==> PkgRead(c, m, r.value)
    ensures r.Ok? ==> r.value.unparsed == m - PkgKeys
    ensures r.Ok? ==> r.value.style == style && r.value.priority == None && r.value.section == None
    ensures "Architecture" !in m ==> r == Err(MissingKey("Architecture"))
    ensures "Architecture" in m && |m["Architecture"]| == 1 && ParseArches(m["Architecture"][0]).Err? ==>
              r == Err(WithContext(ReadingArchitecture, ParseArches(m["Architecture"][0]).error))
  {
    var archLine :- TakeOneLine(m, "Architecture");
    var arches :- ParseArches(archLine.value).MapErr(e => WithContext(ReadingArchitecture, e));
    var om :- RemoveOneLine(archLine.rest, "Original-Maintainer");
    var originalMaintainer :- if om.value.Some? then c.identRead(om.value.value) else Ok([]);
    var name :- TakeOneLine(om.rest, "Package");
    var version :- TakeOneLine(name.rest, "Version");
    var maintainerLine :- TakeOneLine(version.rest, "Maintainer");
    var maintainer :- c.identRead(maintainerLine.value);
    var homepage :- RemoveOneLine(maintainerLine.rest, "Homepage");
    PkgRest(m);
    Ok(Package(name.value, version.value, None, arches, None, maintainer, originalMaintainer,
               homepage.value, homepage.rest, style))
  }

  /**
   * `PkgRead` pins the parse down: the package it describes, with the rest of
   * the map as `unparsed` and both caches empty, is exactly what `parse_pkg`
   * builds.
   */
  lemma ParsePkgComplete<S, B>(c: Collaborators<S, B>, m: Map, p: Package<S, B>)
    requires PkgRead(c, m, p) && p.unparsed == m - PkgKeys
    requires p.priority == None && p.section == None
    ensures ParsePkg(c, m, p.style) == Ok(p)
  {
  }

  lemma PkgRest(m: Map)
    ensures m - {"Architecture"} - {"Original-Maintainer"} - {"Package"} - {"Version"} - {"Maintainer"}
              - {"Homepage"} == m - PkgKeys
  {
    var lhs := m - {"Architecture"} - {"Original-Maintainer"} - {"Package"} - {"Version"} - {"Maintainer"}
               - {"Homepage"};
    assert lhs.Keys == (m - PkgKeys).Keys;
  }

  /** The name `Package::parse` reports in its error contexts. */
  function ContextName(m: Map): Result<string, Error> {
    GetOneLine(m, "Package").MapErr(e => WithContext(NoPackage, e))
  }

  /**
   * `Package::parse`: the name is read (not consumed) first; a record with a
   * Binary field is a source record. Every error carries the context of the
   * stage that raised it.
   */
  function Parse<S, B>(c: Collaborators<S, B>, m: Map): (r: Result<Package<S, B>, Error>)
    ensures "Package" !in m ==> r == Err(WithContext(NoPackage, MissingKey("Package")))
    ensures "Package" in m && |m["Package"]| != 1 ==> r == Err(WithContext(NoPackage, NotOneLine(m["Package"])))
    ensures r.Err? ==> r.error.WithContext?
    ensures r.Err? && "Package" in m && |m["Package"]| == 1 ==>
              r.error.context in {SharedFields(m["Package"][0]),
                                  if "Binary" in m then SourceFields(m["Package"][0])
                                  else BinaryFields(m["Package"][0])}
    ensures "Package" in m && |m["Package"]| == 1 && "Binary" in m && c.parseSrc(m).Err? ==>
              r == Err(WithContext(SourceFields(m["Package"][0]), c.parseSrc(m).error))
    ensures "Package" in m && |m["Package"]| == 1 && "Binary" !in m && c.parseBin(m).Err? ==>
              r == Err(WithContext(BinaryFields(m["Package"][0]), c.parseBin(m).error))
    ensures "Package" in m && |m["Package"]| == 1 && "Binary" in m && c.parseSrc(m).Ok? ==>
              var shared := ParsePkg(c, c.parseSrc(m).value.rest, Records.SourceStyle(c.parseSrc(m).value.value));
              shared.Err? ==> r == Err(WithContext(SharedFields(m["Package"][0]), shared.error))
    ensures "Package" in m && |m["Package"]| == 1 && "Binary" !in m && c.parseBin(m).Ok? ==>
              var shared := ParsePkg(c, c.parseBin(m).value.rest, Records.BinaryStyle(c.parseBin(m).value.value));
              shared.Err? ==> r == Err(WithContext(SharedFields(m["Package"][0]), shared.error))
    ensures r.Ok? ==> (r.value.style.SourceStyle? <==> "Binary" in m)
    ensures r.Ok? ==> Consistent(r.value) && r.value.priority == None && r.value.section == None
    ensures r.Ok? && "Binary" in m ==>
              && c.parseSrc(m).Ok?
              && r.value.style.source == c.parseSrc(m).value.value
              && PkgRead(c, c.parseSrc(m).value.rest, r.value)
              && r.value.unparsed == c.parseSrc(m).value.rest - PkgKeys
    ensures r.Ok? && "Binary" !in m ==>
              && c.parseBin(m).Ok?
              && r.value.style.binary == c.parseBin(m).value.value
              && PkgRead(c, c.parseBin(m).value.rest, r.value)
              && r.value.unparsed == c.parseBin(m).value.rest - PkgKeys
  {
    var name :- ContextName(m);
    if "Binary" in m then
      var src :- c.parseSrc(m).MapErr(e => WithContext(SourceFields(name), e));
      ParsePkg(c, src.rest, Records.SourceStyle(src.value)).MapErr(e => WithContext(SharedFields(name), e))
    else
      var bin :- c.parseBin(m).MapErr(e => WithContext(BinaryFields(name), e));
      ParsePkg(c, bin.rest, Records.BinaryStyle(bin.value)).MapErr(e => WithContext(SharedFields(name), e))
  }

  /**
   * A record with a one-line Package field, whose style parser succeeds with
   * `b` and leaves shared fields that read as `p`, parses to exactly `p`.
   */
  lemma ParseBinaryRecordComplete<S, B>(c: Collaborators<S, B>, m: Map, b: B, rest: Map, p: Package<S, B>)
    requires "Binary" !in m && "Package" in m && |m["Package"]| == 1
    requires c.parseBin(m) == Ok(Taken(b, rest))
    requires PkgRead(c, rest, p) && p.unparsed == rest - PkgKeys
    requires p.priority == None && p.section == None && p.style == Records.BinaryStyle(b)
    ensures Parse(c, m) == Ok(p)
  {
    ParsePkgComplete(c, rest, p);
  }

  /** The same for a source record, read by the source parser. */
  lemma ParseSourceRecordComplete<S, B>(c: Collaborators<S, B>, m: Map, s: S, rest: Map, p: Package<S, B>)
    requires "Binary" in m && "Package" in m && |m["Package"]| == 1
    requires c.parseSrc(m) == Ok(Taken(s, rest))
    requires PkgRead(c, rest, p) && p.unparsed == rest - PkgKeys
    requires p.priority == None && p.section == None && p.style == Records.SourceStyle(s)
    ensures Parse(c, m) == Ok(p)
  {
    ParsePkgComplete(c, rest, p);
  }

  /**
   * When the style parser leaves the Package field alone, the package's name
   * is the name its error contexts would have used.
   */
  lemma NameAgrees<S, B>(c: Collaborators<S, B>, m: Map)
    requires Parse(c, m).Ok?
    requires "Binary" in m ==> "Package" in c.parseSrc(m).value.rest
                               && c.parseSrc(m).value.rest["Package"] == m["Package"]
    requires "Binary" !in m ==> "Package" in c.parseBin(m).value.rest
                                && c.parseBin(m).value.rest["Package"] == m["Package"]
    ensures ContextName(m) == Ok(Parse(c, m).value.name)
  {
  }

  /** `as_src`. */
  function AsSrc<S, B>(p: Package<S, B>): (r: Option<S>)
    ensures r.Some? <==> p.style.SourceStyle?
    ensures r.Some? ==> p.style == Records.SourceStyle(r.value)
  {
    match p.style
    case SourceStyle(s) => Some(s)
    case BinaryStyle(_) => None
  }

  /** `as_bin`. */
  function AsBin<S, B>(p: Package<S, B>): (r: Option<B>)
    ensures r.Some? <==> p.style.BinaryStyle?
    ensures r.Some? ==> p.style == Records.BinaryStyle(r.value)
  {
    match p.style
    case BinaryStyle(b) => Some(b)
    case SourceStyle(_) => None
  }

  /** Every package is viewed as exactly one of the two styles. */
  lemma ExactlyOneStyle<S, B>(p: Package<S, B>)
    ensures AsSrc(p).Some? != AsBin(p).Some?
  {
  }

  /** A value returned by a `&mut self` accessor, with the package as it is left. */
  datatype Step<T, S, B> = Step(result: Result<T, Error>, after: Package<S, B>)

  /**
   * `priority()`. On the first call the Priority field is removed from
   * `unparsed` whatever happens next; an absent field means `Unknown`. The
   * value is cached only when it was read successfully.
   */
  function PriorityOf<S, B>(p: Package<S, B>): (r: Step<Priority, S, B>)
    ensures p.priority.Some? ==> r == Step(Ok(p.priority.value), p)
    ensures p.priority.None? ==> r.after.unparsed == p.unparsed - {"Priority"}
    ensures r.after == p.(priority := r.after.priority, unparsed := r.after.unparsed)
    ensures r.result.Ok? ==> r.after.priority == Some(r.result.value)
    ensures r.result.Err? ==> r.after.priority == None
    ensures p.priority.None? && "Priority" !in p.unparsed ==> r.result == Ok(Unknown)
    ensures p.priority.None? && "Priority" in p.unparsed ==>
              && (r.result.Ok? <==> |p.unparsed["Priority"]| == 1 && ParsePriority(p.unparsed["Priority"][0]).Ok?)
              && (r.result.Ok? ==> PriorityName(r.result.value) == p.unparsed["Priority"][0])
              && (|p.unparsed["Priority"]| != 1 ==> r.result == Err(NotOneLine(p.unparsed["Priority"])))
              && (|p.unparsed["Priority"]| == 1 && ParsePriority(p.unparsed["Priority"][0]).Err? ==>
                    r.result == Err(UnsupportedPriority(p.unparsed["Priority"][0])))
  {
    if p.priority.Some? then Step(Ok(p.priority.value), p)
    else
      var removed := Remove(p.unparsed, "Priority");
      var q := p.(unparsed := removed.rest);
      match removed.value
      case None => Step(Ok(Unknown), q.(priority := Some(Unknown)))
      case Some(lines) =>
        match OneLine(lines)
        case Err(e) => Step(Err(e), q)
        case Ok(line) =>
          match ParsePriority(line)
          case Err(e) => Step(Err(e), q)
          case Ok(v) => Step(Ok(v), q.(priority := Some(v)))
  }

  /** `priority()` keeps a package consistent. */
  lemma PriorityKeepsConsistent<S, B>(p: Package<S, B>)
    requires Consistent(p)
    ensures Consistent(PriorityOf(p).after)
  {
  }

  /** Once read successfully, the priority is cached: a second call answers the same and changes nothing. */
  lemma PriorityIdempotent<S, B>(p: Package<S, B>)
    requires PriorityOf(p).result.Ok?
    ensures PriorityOf(PriorityOf(p).after) == PriorityOf(p)
  {
  }

  /**
   * A failed read has already consumed the field, so calling `priority()`
   * again reports `Unknown` instead of the error.
   */
  lemma PriorityRetryAfterFailure<S, B>(p: Package<S, B>)
    requires PriorityOf(p).result.Err?
    ensures PriorityOf(PriorityOf(p).after).result == Ok(Unknown)
  {
  }

  /** The precondition of `section()`: without a cached or raw Section, `unwrap` panics. */
  ghost predicate SectionReadable<S, B>(p: Package<S, B>) {
    p.section.Some? || "Section" in p.unparsed
  }

  /**
   * `section()`. On the first call the Section field is removed from
   * `unparsed`; a one-line field is cached and returned, anything else is an
   * error and nothing is cached.
   */
  function SectionOf<S, B>(p: Package<S, B>): (r: Step<string, S, B>)
    requires SectionReadable(p)
    ensures p.section.Some? ==> r == Step(Ok(p.section.value), p)
    ensures p.section.None? ==> r.after.unparsed == p.unparsed - {"Section"}
    ensures r.after == p.(section := r.after.section, unparsed := r.after.unparsed)
    ensures r.result.Ok? ==> r.after.section == Some(r.result.value)
    ensures r.result.Err? ==> r.after.section == None
    ensures p.section.None? ==>
              && (r.result.Ok? <==> |p.unparsed["Section"]| == 1)
              && (r.result.Ok? ==> r.result.value == p.unparsed["Section"][0])
              && (r.result.Err? ==> r.result == Err(NotOneLine(p.unparsed["Section"])))
  {
    if p.section.Some? then Step(Ok(p.section.value), p)
    else
      var removed := Remove(p.unparsed, "Section");
      var q := p.(unparsed := removed.rest);
      match OneLine(removed.value.value)
      case Err(e) => Step(Err(e), q)
      case Ok(line) => Step(Ok(line), q.(section := Some(line)))
  }

  /** `section()` keeps a package consistent. */
  lemma SectionKeepsConsistent<S, B>(p: Package<S, B>)
    requires Consistent(p) && SectionReadable(p)
    ensures Consistent(SectionOf(p).after)
  {
  }

  /** Once read successfully, the section is cached: a second call answers the same and changes nothing. */
  lemma SectionIdempotent<S, B>(p: Package<S, B>)
    requires SectionReadable(p) && SectionOf(p).result.Ok?
    ensures SectionReadable(SectionOf(p).after)
    ensures SectionOf(SectionOf(p).after) == SectionOf(p)
  {
  }

  /** After a failed read the field is gone and nothing is cached: a second call would panic. */
  lemma SectionFailureIsFinal<S, B>(p: Package<S, B>)
    requires SectionReadable(p) && SectionOf(p).result.Err?
    ensures !SectionReadable(SectionOf(p).after)
  {
  }

  /** Priority and Section are independent: reading one leaves the other's field and cache alone. */
  lemma AccessorsIndependent<S, B>(p: Package<S, B>)
    ensures PriorityOf(p).after.section == p.section
    ensures "Section" in p.unparsed ==> "Section" in PriorityOf(p).after.unparsed
                                          && PriorityOf(p).after.unparsed["Section"] == p.unparsed["Section"]
  {
  }
}
