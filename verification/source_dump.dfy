/**
 * The C++ dumper that turns one apt source record into a Source message
 * (main.cpp). The record arrives as a `std::map` from field name to value;
 * each field the dumper understands is taken out of it, and whatever is left
 * is reported as not consumed.
 */
module SourceDump {
  import opened Results
  import opened Collections
  import opened CppText
  import opened Priorities
  import opened SortedMap
  import Records

  type MapT = map<string, string>

  /** A thrown `std::runtime_error`, with its message. */
  datatype Failure = RuntimeError(what: string)

  /** A value taken out of the map, and what is left of the map. */
  datatype Took = Took(value: string, rest: MapT)

  /** `take_mandatory`: the key's value, removing exactly that key; an absent key throws. */
  function TakeMandatory(m: MapT, key: string): (r: Result<Took, Failure>)
    ensures r.Ok? <==> key in m
    ensures r.Ok? ==> r.value.value == m[key] && r.value.rest == m - {key}
    ensures r.Err? ==> r.error == Missing(key)
  {
    if key in m then Ok(Took(m[key], m - {key}))
    else Err(Missing(key))
  }

  /** The failure `take_mandatory` throws for an absent key. */
  function Missing(key: string): Failure {
    RuntimeError("mandatory key " + key + " is missing")
  }

  /** `take_optional`: like `take_mandatory`, but an absent key reads as "" and leaves the map alone. */
  function TakeOptional(m: MapT, key: string): (r: Took)
    ensures key in m ==> r.value == m[key]
    ensures key !in m ==> r.value == ""
    ensures r.rest == m - {key}
  {
    if key in m then Took(m[key], m - {key}) else Took("", m)
  }

  /** Both take helpers leave every other entry exactly as it was. */
  lemma TakeLeavesOthers(m: MapT, key: string, other: string)
    requires other != key
    ensures other in TakeOptional(m, key).rest <==> other in m
    ensures other in m ==> TakeOptional(m, key).rest[other] == m[other]
    ensures TakeMandatory(m, key).Ok? ==>
              (other in TakeMandatory(m, key).value.rest <==> other in m)
  {
  }

  /** `set_priority`: six tokens; unlike the Rust parser it has no spelling for `Unknown`. */
  function SetPriority(from: string): (r: Result<Priority, Failure>)
    ensures r.Ok? ==> PriorityName(r.value) == from && r.value != Unknown
    ensures r.Err? ==> r.error == RuntimeError("unrecognised priority: " + from)
  {
    if "required" == from then Ok(Required)
    else if "important" == from then Ok(Important)
    else if "standard" == from then Ok(Standard)
    else if "optional" == from then Ok(Optional)
    else if "extra" == from then Ok(Extra)
    else if "source" == from then Ok(Priorities.Source)
    else Err(RuntimeError("unrecognised priority: " + from))
  }

  /** `set_priority` accepts exactly what `parse_priority` accepts except "unknown", with the same meaning. */
  lemma SetPriorityAgrees(s: string)
    ensures SetPriority(s).Ok? <==> ParsePriority(s).Ok? && s != "unknown"
    ensures SetPriority(s).Ok? ==> SetPriority(s).value == ParsePriority(s).value
  {
    if ParsePriority(s).Ok? && s != "unknown" {
      var p := ParsePriority(s).value;
      ParsePriorityName(p);
      assert PriorityName(p) == s;
    }
    if SetPriority(s).Ok? {
      ParsePriorityName(SetPriority(s).value);
    }
  }

  /** How each source format is spelled in the Format field. */
  function FormatName(f: Records.SourceFormat): string {
    match f
    case Original => "1.0"
    case Quilt3dot0 => "3.0 (quilt)"
    case Native3dot0 => "3.0 (native)"
    case Git3dot0 => "3.0 (git)"
  }

  /** The Format mapping: the four exact spellings, anything else throws. */
  function ParseFormat(s: string): (r: Result<Records.SourceFormat, Failure>)
    ensures r.Ok? ==> FormatName(r.value) == s
    ensures r.Err? ==> r.error == RuntimeError("unrecognised format: " + s)
  {
    if "3.0 (quilt)" == s then Ok(Records.Quilt3dot0)
    else if "3.0 (native)" == s then Ok(Records.Native3dot0)
    else if "1.0" == s then Ok(Records.Original)
    else if "3.0 (git)" == s then Ok(Records.Git3dot0)
    else Err(RuntimeError("unrecognised format: " + s))
  }

  /** Every format's spelling maps back to it, so a string is accepted exactly when it spells a format. */
  lemma ParseFormatName(f: Records.SourceFormat)
    ensures ParseFormat(FormatName(f)) == Ok(f)
  {
  }

  lemma ParseFormatIffNamed(s: string)
    ensures ParseFormat(s).Ok? <==> exists f :: FormatName(f) == s
  {
    if exists f :: FormatName(f) == s {
      var f :| FormatName(f) == s;
      ParseFormatName(f);
    }
  }

  /** One produced binary. A name taken from the raw Binary list has nothing else set. */
  datatype BinaryEntry = BinaryEntry(
    name: string, style: string, section: string, priority: Option<Priority>, extras: seq<string>)

  /**
   * One Package-List line: at least four space-separated parts, which are
   * name, style, section and priority; the parts after them are extras.
   */
  function ParseListLine(line: string): (r: Result<BinaryEntry, Failure>)
    ensures |Split(line, ' ')| < 4 ==> r == Err(RuntimeError("failed to parse Package-List"))
    ensures |Split(line, ' ')| >= 4 ==>
              var parts := Split(line, ' ');
              && (r.Ok? <==> SetPriority(parts[3]).Ok?)
              && (r.Ok? ==> r.value == BinaryEntry(parts[0], parts[1], parts[2], Some(SetPriority(parts[3]).value), parts[4..]))
              && (r.Err? ==> r == Err(SetPriority(parts[3]).error))
  {
    var parts := Split(line, ' ');
    if |parts| < 4 then Err(RuntimeError("failed to parse Package-List"))
    else
      var priority :- SetPriority(parts[3]);
      Ok(BinaryEntry(parts[0], parts[1], parts[2], Some(priority), parts[4..]))
  }

  /** Non-empty, with no C-locale whitespace (`IsSpace`), so `split` and its trimming leave it whole. */
  predicate SpaceFreeWord(w: string) {
    |w| > 0 && forall k :: 0 <= k < |w| ==> !IsSpace(w[k])
  }

  /**
   * A line written from its parts reads back as those parts: name, style,
   * section and priority come back in place, and the extras in order.
   */
  lemma ListLineRoundTrip(name: string, style: string, section: string, p: Priority, extras: seq<string>)
    requires SpaceFreeWord(name) && SpaceFreeWord(style) && SpaceFreeWord(section) && p != Unknown
    requires forall k :: 0 <= k < |extras| ==> SpaceFreeWord(extras[k])
    ensures ParseListLine(JoinWith([name, style, section, PriorityName(p)] + extras, ' '))
              == Ok(BinaryEntry(name, style, section, Some(p), extras))
  {
    var parts := [name, style, section, PriorityName(p)] + extras;
    PartsAreWords(name, style, section, p, extras);
    SetPriorityName(p);
    WordsLine(parts);
    assert parts[4..] == extras;
  }

  lemma PartsAreWords(name: string, style: string, section: string, p: Priority, extras: seq<string>)
    requires SpaceFreeWord(name) && SpaceFreeWord(style) && SpaceFreeWord(section)
    requires forall k :: 0 <= k < |extras| ==> SpaceFreeWord(extras[k])
    ensures var parts := [name, style, section, PriorityName(p)] + extras;
            forall k :: 0 <= k < |parts| ==> SpaceFreeWord(parts[k])
  {
    var parts := [name, style, section, PriorityName(p)] + extras;
    forall k | 0 <= k < |parts| ensures SpaceFreeWord(parts[k]) {
      if k == 3 {
        PriorityWord(p);
      } else if k > 3 {
        assert parts[k] == extras[k - 4];
      }
    }
  }

  /** A line of at least four words with a valid priority parses to those words. */
  lemma WordsLine(parts: seq<string>)
    requires |parts| >= 4 && forall k :: 0 <= k < |parts| ==> SpaceFreeWord(parts[k])
    requires SetPriority(parts[3]).Ok?
    ensures ParseListLine(JoinWith(parts, ' '))
              == Ok(BinaryEntry(parts[0], parts[1], parts[2], Some(SetPriority(parts[3]).value), parts[4..]))
  {
    WordsSplit(parts);
  }

  /** Words joined with single spaces split back into the same words. */
  lemma WordsSplit(ws: seq<string>)
    requires forall k :: 0 <= k < |ws| ==> SpaceFreeWord(ws[k])
    ensures Split(JoinWith(ws, ' '), ' ') == ws
  {
    forall k | 0 <= k < |ws| ensures Trimmed(ws[k]) && ' ' !in ws[k] {
      WordPiece(ws[k]);
    }
    SplitJoin(ws, ' ');
  }

  lemma SetPriorityName(p: Priority)
    requires p != Unknown
    ensures SetPriority(PriorityName(p)) == Ok(p)
  {
  }

  lemma PriorityWord(p: Priority)
    ensures SpaceFreeWord(PriorityName(p))
  {
  }

  lemma WordPiece(w: string)
    requires SpaceFreeWord(w)
    ensures Trimmed(w) && ' ' !in w
  {
    assert !IsSpace(w[0]) && !IsSpace(w[|w| - 1]);
  }

  /** Each line of a Package-List parsed on its own. */
  function ParseEach(lines: seq<string>): (rs: seq<Result<BinaryEntry, Failure>>)
    ensures |rs| == |lines| && forall i :: 0 <= i < |lines| ==> rs[i] == ParseListLine(lines[i])
  {
    seq(|lines|, i requires 0 <= i < |lines| => ParseListLine(lines[i]))
  }

  /** The lines of a Package-List, parsed in order; the first bad line throws. */
  function ParseListLines(lines: seq<string>): Result<seq<BinaryEntry>, Failure> {
    Collect(ParseEach(lines))
  }

  /** All lines parse iff each one does. */
  lemma ParseListLinesOk(lines: seq<string>)
    ensures ParseListLines(lines).Ok? <==> forall i :: 0 <= i < |lines| ==> ParseListLine(lines[i]).Ok?
  {
    var rs := ParseEach(lines);
    CollectOk(rs);
    assert (forall i :: 0 <= i < |rs| ==> rs[i].Ok?) <==> (forall i :: 0 <= i < |lines| ==> ParseListLine(lines[i]).Ok?);
  }

  /** When all lines parse, the entries are the lines' entries in order. */
  lemma ParseListLinesValues(lines: seq<string>)
    requires ParseListLines(lines).Ok?
    ensures |ParseListLines(lines).value| == |lines|
    ensures forall i :: 0 <= i < |lines| ==> ParseListLine(lines[i]) == Ok(ParseListLines(lines).value[i])
  {
    CollectOk(ParseEach(lines));
  }

  /** A failure is the error of some line that fails after only lines that parse. */
  lemma ParseListLinesErr(lines: seq<string>)
    ensures ParseListLines(lines).Err? ==>
              exists i :: 0 <= i < |lines| && ParseListLine(lines[i]).Err?
                          && ParseListLines(lines).error == ParseListLine(lines[i]).error
                          && forall j :: 0 <= j < i ==> ParseListLine(lines[j]).Ok?
  {
    CollectErr(ParseEach(lines));
  }

  /** `std::numeric_limits<uint>::max()` for a 32-bit `unsigned int`. */
  const UintMax: int := 0xFFFF_FFFF

  /** The binaries from the raw Binary list: names only. */
  function RawEntries(raw: seq<string>): (r: seq<BinaryEntry>)
    ensures |r| == |raw| && forall i :: 0 <= i < |raw| ==> r[i] == BinaryEntry(raw[i], "", "", None, [])
  {
    seq(|raw|, i requires 0 <= i < |raw| => BinaryEntry(raw[i], "", "", None, []))
  }

  /**
   * The binaries section: a non-empty Package-List is split into lines and
   * each is parsed; an absent or empty one falls back to the raw names.
   */
  function Binaries(m: MapT, raw: seq<string>): (r: Result<(seq<BinaryEntry>, MapT), Failure>)
    ensures r.Ok? ==> r.value.1 == m - {"Binary"} - {"Package-List"}
    ensures Get(m, "Package-List") == "" ==> r == Ok((RawEntries(raw), m - {"Binary"} - {"Package-List"}))
    ensures Get(m, "Package-List") != "" ==>
              var lines := Split(Get(m, "Package-List"), '\n');
              && (|lines| > UintMax ==> r == Err(RuntimeError("can't have more than 'int' binaries")))
              && (|lines| <= UintMax ==> r.Ok? == ParseListLines(lines).Ok?)
              && (|lines| <= UintMax && r.Err? ==> r.error == ParseListLines(lines).error)
              && (r.Ok? ==> r.value.0 == ParseListLines(lines).value)
  {
    var list := TakeOptional(m - {"Binary"}, "Package-List");
    if list.value != "" then
      var packages := Split(list.value, '\n');
      if |packages| > UintMax then Err(RuntimeError("can't have more than 'int' binaries"))
      else
        var binaries :- ParseListLines(packages);
        Ok((binaries, list.rest))
    else Ok((RawEntries(raw), list.rest))
  }

  /** The nine Vcs tags, in the order the dumper asks for them. */
  const VcsTags: seq<string> := ["Browser", "Arch", "Bzr", "Cvs", "Darcs", "Git", "Hg", "Mtn", "Svn"]

  function VcsKey(tag: string): string {
    "Vcs-" + tag
  }

  lemma VcsKeyInjective(a: string, b: string)
    requires VcsKey(a) == VcsKey(b)
    ensures a == b
  {
    assert a == VcsKey(a)[4..] && b == VcsKey(b)[4..];
  }

  /** The Vcs-<tag> field is present and non-empty. */
  predicate Listed(m: MapT, tag: string) {
    VcsKey(tag) in m && m[VcsKey(tag)] != ""
  }

  /**
   * The Vcs loop: each tag's field is taken (so even an empty one is
   * consumed) and, when non-empty, stored in the sorted map under the tag.
   */
  function CollectVcs(m: MapT, tags: seq<string>, acc: seq<Entry>): (r: (seq<Entry>, MapT))
    requires Sorted(acc)
    requires forall i, j :: 0 <= i < j < |tags| ==> tags[i] != tags[j]
    requires forall e :: e in acc ==> e.key !in tags
    ensures Sorted(r.0)
    ensures r.1 == m - (set t | t in tags :: VcsKey(t))
    ensures forall e :: e in r.0 <==> e in acc || (e.key in tags && Listed(m, e.key) && e.value == m[VcsKey(e.key)])
    decreases |tags|
  {
    if |tags| == 0 then
      assert (set t | t in tags :: VcsKey(t)) == {};
      (acc, m)
    else
      var tag := tags[0];
      var text := TakeOptional(m, VcsKey(tag));
      var acc' := if text.value == "" then acc else Put(acc, tag, text.value);
      assert forall e :: e in acc' ==> e.key !in tags[1..] by {
        forall e | e in acc' ensures e.key !in tags[1..] {
          if e.key == tag {
            assert forall j :: 0 <= j < |tags[1..]| ==> tags[1..][j] == tags[j + 1];
          } else {
            assert e.key !in tags;
          }
        }
      }
      var r := CollectVcs(text.rest, tags[1..], acc');
      CollectStep(m, tags, text.rest);
      r
  }

  lemma CollectStep(m: MapT, tags: seq<string>, rest: MapT)
    requires |tags| > 0 && rest == m - {VcsKey(tags[0])}
    requires forall i, j :: 0 <= i < j < |tags| ==> tags[i] != tags[j]
    ensures rest - (set t | t in tags[1..] :: VcsKey(t)) == m - (set t | t in tags :: VcsKey(t))
    ensures forall t :: t in tags[1..] ==>
              && (VcsKey(t) in rest <==> VcsKey(t) in m)
              && (VcsKey(t) in m ==> rest[VcsKey(t)] == m[VcsKey(t)])
  {
    assert (set t | t in tags :: VcsKey(t)) == {VcsKey(tags[0])} + (set t | t in tags[1..] :: VcsKey(t));
    forall t | t in tags[1..] ensures VcsKey(t) != VcsKey(tags[0]) {
      if VcsKey(t) == VcsKey(tags[0]) {
        VcsKeyInjective(t, tags[0]);
      }
    }
    var lhs := rest - (set t | t in tags[1..] :: VcsKey(t));
    assert lhs.Keys == (m - (set t | t in tags :: VcsKey(t))).Keys;
  }

  /** The Vcs type named by a tag, or none for a tag outside the nine. */
  function TagType(tag: string): (r: Option<Records.VcsType>)
    ensures r.Some? <==> tag in VcsTags
  {
    if "Browser" == tag then Some(Records.Browser)
    else if "Arch" == tag then Some(Records.Arch)
    else if "Bzr" == tag then Some(Records.Bzr)
    else if "Cvs" == tag then Some(Records.Cvs)
    else if "Darcs" == tag then Some(Records.Darcs)
    else if "Git" == tag then Some(Records.Git)
    else if "Hg" == tag then Some(Records.Hg)
    else if "Mtn" == tag then Some(Records.Mtn)
    else if "Svn" == tag then Some(Records.Svn)
    else None
  }

  datatype VcsEntry = VcsEntry(description: string, vcsType: Records.VcsType)

  /** The output loop over the map, in key order; a tag outside the nine would throw "unreachable code". */
  function VcsOut(es: seq<Entry>): (r: Result<seq<VcsEntry>, Failure>)
    ensures r.Ok? <==> forall i :: 0 <= i < |es| ==> es[i].key in VcsTags
    ensures r.Ok? ==> |r.value| == |es|
    ensures r.Ok? ==> forall i :: 0 <= i < |es| ==>
                        r.value[i] == VcsEntry(es[i].value, TagType(es[i].key).value)
    ensures r.Err? ==> r.error == RuntimeError("unreachable code")
  {
    if |es| == 0 then Ok([])
    else
      match TagType(es[0].key)
      case None => Err(RuntimeError("unreachable code"))
      case Some(t) =>
        var rest :- VcsOut(es[1..]);
        Ok([VcsEntry(es[0].value, t)] + rest)
  }

  /** The Vcs section of the message, with what is left of the map. */
  function Vcses(m: MapT): (r: (Result<seq<VcsEntry>, Failure>, seq<Entry>, MapT))
    ensures Sorted(r.1)
    ensures forall e :: e in r.1 <==> e.key in VcsTags && Listed(m, e.key) && e.value == m[VcsKey(e.key)]
    ensures r.0.Ok? && |r.0.value| == |r.1|
    ensures forall i :: 0 <= i < |r.1| ==> r.0.value[i] == VcsEntry(r.1[i].value, TagType(r.1[i].key).value)
    ensures r.2 == m - (set t | t in VcsTags :: VcsKey(t))
  {
    var collected := CollectVcs(m, VcsTags, []);
    assert forall i :: 0 <= i < |collected.0| ==> collected.0[i].key in VcsTags by {
      forall i | 0 <= i < |collected.0| ensures collected.0[i].key in VcsTags {
        assert collected.0[i] in collected.0;
      }
    }
    (VcsOut(collected.0), collected.0, collected.1)
  }

  /** A field's value, or "" when it is absent (what `take_optional` reads). */
  function Get(m: MapT, key: string): string {
    if key in m then m[key] else ""
  }

  /** The message leaves an optional text unset when it is empty. */
  function NonEmpty(s: string): (r: Option<string>)
    ensures r.None? <==> s == ""
    ensures r.Some? ==> r.value == s
  {
    if s == "" then None else Some(s)
  }

  /** An optional Priority field: unset when empty, otherwise through `set_priority`. */
  function OptionalPriority(s: string): (r: Result<Option<Priority>, Failure>)
    ensures s == "" ==> r == Ok(None)
    ensures s != "" ==> (r.Ok? <==> SetPriority(s).Ok?)
    ensures s != "" && r.Ok? ==> r.value == Some(SetPriority(s).value)
    ensures r.Err? ==> r.error == SetPriority(s).error
  {
    if s == "" then Ok(None)
    else
      var p :- SetPriority(s);
      Ok(Some(p))
  }

  /** The single-valued fields of the message. */
  datatype Header = Header(
    directory: string,
    homepage: Option<string>,
    section: string,
    maintainer: string,
    origMaint: Option<string>,
    priority: Option<Priority>,
    standards: Option<string>,
    arch: seq<string>)

  const HeaderKeys: set<string> := {
    "Package", "Source", "Version", "Directory", "Homepage", "Section", "Maintainer",
    "Original-Maintainer", "Priority", "Standards-Version", "Architecture"}

  /** What the header of a rendered record says about the fields it came from. */
  ghost predicate HeaderRead(m: MapT, h: Header) {
    && "Directory" in m && h.directory == m["Directory"]
    && "Section" in m && h.section == m["Section"]
    && "Maintainer" in m && h.maintainer == m["Maintainer"]
    && "Architecture" in m && h.arch == [m["Architecture"]]
    && h.homepage == NonEmpty(Get(m, "Homepage"))
    && h.origMaint == NonEmpty(Get(m, "Original-Maintainer"))
    && h.standards == NonEmpty(Get(m, "Standards-Version"))
    && OptionalPriority(Get(m, "Priority")) == Ok(h.priority)
  }

  /**
   * The first part of `render`: drop Package, Source and Version (the
   * cursor supplies those), then take Directory, Homepage, Section,
   * Maintainer, Original-Maintainer, Priority, Standards-Version and
   * Architecture in that order. Each take removes only its own field
   * (`TakeLeavesOthers`), so every one reads the field as it is in `m`; the
   * order decides which failure is thrown first. The Architecture field is
   * copied whole, as the one element of the list.
   */
  function ReadHeader(m: MapT): (r: Result<(Header, MapT), Failure>)
    ensures r.Ok? ==> HeaderRead(m, r.value.0) && r.value.1 == m - HeaderKeys
    ensures r.Ok? <==> && "Directory" in m && "Section" in m && "Maintainer" in m && "Architecture" in m
                       && OptionalPriority(Get(m, "Priority")).Ok?
    ensures "Directory" !in m ==> r == Err(Missing("Directory"))
    ensures "Directory" in m && "Section" !in m ==> r == Err(Missing("Section"))
    ensures "Directory" in m && "Section" in m && "Maintainer" !in m ==> r == Err(Missing("Maintainer"))
    ensures "Directory" in m && "Section" in m && "Maintainer" in m && OptionalPriority(Get(m, "Priority")).Err? ==>
              r == Err(OptionalPriority(Get(m, "Priority")).error)
    ensures ("Directory" in m && "Section" in m && "Maintainer" in m && "Architecture" !in m
             && OptionalPriority(Get(m, "Priority")).Ok?) ==> r == Err(Missing("Architecture"))
  {
    var directory :- TakeMandatory(m, "Directory");
    var section :- TakeMandatory(m, "Section");
    var maintainer :- TakeMandatory(m, "Maintainer");
    var priority :- OptionalPriority(Get(m, "Priority"));
    var arch :- TakeMandatory(m, "Architecture");
    Ok((Header(directory.value, NonEmpty(Get(m, "Homepage")), section.value, maintainer.value,
               NonEmpty(Get(m, "Original-Maintainer")), priority, NonEmpty(Get(m, "Standards-Version")),
               [arch.value]),
        m - HeaderKeys))
  }

  /** One source archive as apt's `Files2` reports it, with the digests it found. */
  datatype FileEntry = FileEntry(
    name: string, size: nat, md5: Option<string>, sha1: Option<string>, sha256: Option<string>,
    sha512: Option<string>)

  /** The fields the file list replaces. */
  const FileKeys: set<string> := {"Files", "Checksums-Sha1", "Checksums-Sha256", "Checksums-Sha512"}

  /** The file section: the cursor's files, provided their count fits an `unsigned int`. */
  function Files(m: MapT, files: seq<FileEntry>): (r: Result<(seq<FileEntry>, MapT), Failure>)
    ensures r.Ok? <==> |files| <= UintMax
    ensures r.Ok? ==> r.value == (files, m - FileKeys)
    ensures r.Err? ==> r.error == RuntimeError("can't have more than 'int' files")
  {
    var rest := m - {"Files"} - {"Checksums-Sha1"} - {"Checksums-Sha256"} - {"Checksums-Sha512"};
    assert rest == m - FileKeys by {
      assert rest.Keys == (m - FileKeys).Keys;
    }
    if |files| > UintMax then Err(RuntimeError("can't have more than 'int' files"))
    else Ok((files, rest))
  }

  /** What the apt cursor supplies besides the record text. */
  datatype Cursor = Cursor(package: string, version: string, binaries: seq<string>, files: seq<FileEntry>)

  /** The Source message `render` writes, and the fields it reports as not consumed. */
  datatype Dump = Dump(
    package: string,
    version: string,
    header: Header,
    binaries: seq<BinaryEntry>,
    files: seq<FileEntry>,
    vcs: seq<VcsEntry>,
    format: Records.SourceFormat,
    leftover: MapT)

  /** The Vcs fields, one per tag. */
  const VcsKeys: set<string> := set t | t in VcsTags :: VcsKey(t)

  /** Every field `render` consumes. */
  const ConsumedKeys: set<string> := EarlyKeys + {"Format"}

  /**
   * `render`: the header, the binaries, the files, the Vcs entries in tag
   * order and the format, each read from what the previous steps left; the
   * first failure is thrown. `Binaries()` must return at least one name,
   * since the copy loop reads its first element before testing for the end.
   */
  function Render(c: Cursor, val: MapT): (r: Result<Dump, Failure>)
    requires |c.binaries| > 0
    ensures r.Ok? ==> r.value.package == c.package && r.value.version == c.version
    ensures r.Ok? ==> ReadHeader(val).Ok? && r.value.header == ReadHeader(val).value.0 && HeaderRead(val, r.value.header)
    ensures r.Ok? ==> r.value.leftover == val - ConsumedKeys
    ensures r.Ok? ==> "Format" in val && FormatName(r.value.format) == val["Format"]
    ensures r.Ok? ==> r.value.files == c.files
    ensures r.Ok? && Get(val, "Package-List") == "" ==> r.value.binaries == RawEntries(c.binaries)
    ensures r.Ok? && Get(val, "Package-List") != "" ==>
              ParseListLines(Split(Get(val, "Package-List"), '\n')) == Ok(r.value.binaries)
    ensures r.Ok? ==> r.value.vcs == Vcses(val).0.value
    ensures ReadHeader(val).Err? ==> r == Err(ReadHeader(val).error)
  {
    var header :- ReadHeader(val);
    var binaries :- Binaries(header.1, c.binaries);
    BinariesFromRecord(val, header.1, c.binaries, binaries);
    var files :- Files(binaries.1, c.files);
    VcsFieldsKept(val, header.1, binaries.1, files.1);
    var vcs := Vcses(files.1);
    var vcsOut := vcs.0.value;
    FormatKept(val, header.1, binaries.1, files.1, vcs.2);
    var format :- TakeMandatory(vcs.2, "Format");
    var parsed :- ParseFormat(format.value);
    LeftoverKeys(val, header.1, binaries.1, files.1, vcs.2);
    Ok(Dump(c.package, c.version, header.0, binaries.0, files.0, vcsOut, parsed, format.rest))
  }

  /** The record's Package-List is absent or empty, or it has at most `UintMax` lines that all parse. */
  predicate BinariesOk(val: MapT) {
    var lines := Split(Get(val, "Package-List"), '\n');
    Get(val, "Package-List") == "" || (|lines| <= UintMax && ParseListLines(lines).Ok?)
  }

  /**
   * A record renders exactly when each step can succeed: the header fields
   * are there with an acceptable priority, the binaries section is
   * well-formed, the file count fits, and the Format field names a format.
   */
  lemma RenderSucceeds(c: Cursor, val: MapT)
    requires |c.binaries| > 0
    ensures Render(c, val).Ok? <==>
              && ReadHeader(val).Ok?
              && BinariesOk(val)
              && |c.files| <= UintMax
              && "Format" in val && ParseFormat(val["Format"]).Ok?
  {
    if ReadHeader(val).Ok? {
      RenderAfterHeader(c, val);
    }
  }

  /**
   * Once the header is read, the steps fail in `render`'s order: the binary
   * count, then a bad Package-List line, then the file count, then a missing
   * Format, then an unknown format.
   */
  lemma RenderFailure(c: Cursor, val: MapT)
    requires |c.binaries| > 0 && ReadHeader(val).Ok?
    ensures var lines := Split(Get(val, "Package-List"), '\n');
            && (Get(val, "Package-List") != "" && |lines| > UintMax ==>
                  Render(c, val) == Err(RuntimeError("can't have more than 'int' binaries")))
            && (Get(val, "Package-List") != "" && |lines| <= UintMax && ParseListLines(lines).Err? ==>
                  Render(c, val) == Err(ParseListLines(lines).error))
            && (BinariesOk(val) && |c.files| > UintMax ==>
                  Render(c, val) == Err(RuntimeError("can't have more than 'int' files")))
            && (BinariesOk(val) && |c.files| <= UintMax && "Format" !in val ==>
                  Render(c, val) == Err(Missing("Format")))
            && (BinariesOk(val) && |c.files| <= UintMax && "Format" in val && ParseFormat(val["Format"]).Err? ==>
                  Render(c, val) == Err(ParseFormat(val["Format"]).error))
  {
    RenderAfterHeader(c, val);
  }

  /** `Render` after a header that reads: the outcome of each later step, in terms of the record. */
  lemma RenderAfterHeader(c: Cursor, val: MapT)
    requires |c.binaries| > 0 && ReadHeader(val).Ok?
    ensures var lines := Split(Get(val, "Package-List"), '\n');
            var b := Binaries(val - HeaderKeys, c.binaries);
            && (b.Ok? <==> BinariesOk(val))
            && (b.Err? ==> Render(c, val) == Err(b.error))
            && (Get(val, "Package-List") != "" && |lines| > UintMax ==>
                  b == Err(RuntimeError("can't have more than 'int' binaries")))
            && (Get(val, "Package-List") != "" && |lines| <= UintMax && b.Err? ==>
                  b.error == ParseListLines(lines).error)
            && (b.Ok? && |c.files| > UintMax ==> Render(c, val) == Err(RuntimeError("can't have more than 'int' files")))
            && (b.Ok? && |c.files| <= UintMax ==>
                  && ("Format" !in val ==> Render(c, val) == Err(Missing("Format")))
                  && ("Format" in val ==>
                        (Render(c, val).Ok? <==> ParseFormat(val["Format"]).Ok?)
                        && (ParseFormat(val["Format"]).Err? ==> Render(c, val) == Err(ParseFormat(val["Format"]).error))))
  {
    BinariesStep(val, c.binaries);
    var b := Binaries(val - HeaderKeys, c.binaries);
    if b.Err? {
      RenderAtBinaries(c, val);
    } else {
      RenderAfterBinaries(c, val);
    }
  }

  /** The binaries step, run on what the header leaves, judged by the record's own Package-List. */
  lemma BinariesStep(val: MapT, raw: seq<string>)
    ensures var lines := Split(Get(val, "Package-List"), '\n');
            var b := Binaries(val - HeaderKeys, raw);
            && (b.Ok? <==> BinariesOk(val))
            && (Get(val, "Package-List") != "" && |lines| > UintMax ==>
                  b == Err(RuntimeError("can't have more than 'int' binaries")))
            && (Get(val, "Package-List") != "" && |lines| <= UintMax && b.Err? ==>
                  b.error == ParseListLines(lines).error)
  {
    assert Get(val - HeaderKeys, "Package-List") == Get(val, "Package-List");
  }

  /** A failing binaries step is `render`'s failure. */
  lemma RenderAtBinaries(c: Cursor, val: MapT)
    requires |c.binaries| > 0 && ReadHeader(val).Ok?
    requires Binaries(val - HeaderKeys, c.binaries).Err?
    ensures Render(c, val) == Err(Binaries(val - HeaderKeys, c.binaries).error)
  {
  }

  /** After the binaries step: the file count, then the Format field, decide. */
  lemma RenderAfterBinaries(c: Cursor, val: MapT)
    requires |c.binaries| > 0 && ReadHeader(val).Ok?
    requires Binaries(val - HeaderKeys, c.binaries).Ok?
    ensures |c.files| > UintMax ==> Render(c, val) == Err(RuntimeError("can't have more than 'int' files"))
    ensures |c.files| <= UintMax ==>
              && ("Format" !in val ==> Render(c, val) == Err(Missing("Format")))
              && ("Format" in val ==>
                    (Render(c, val).Ok? <==> ParseFormat(val["Format"]).Ok?)
                    && (ParseFormat(val["Format"]).Err? ==> Render(c, val) == Err(ParseFormat(val["Format"]).error)))
  {
    var m1 := val - HeaderKeys;
    var m2 := Binaries(m1, c.binaries).value.1;
    if |c.files| <= UintMax {
      var m3 := Files(m2, c.files).value.1;
      FormatKept(val, m1, m2, m3, Vcses(m3).2);
    }
  }

  /** The header step leaves the Package-List field alone, so the binaries come from the record's own list. */
  lemma BinariesFromRecord(val: MapT, m1: MapT, raw: seq<string>, b: (seq<BinaryEntry>, MapT))
    requires m1 == val - HeaderKeys
    requires Binaries(m1, raw) == Ok(b)
    ensures Get(val, "Package-List") == "" ==> b.0 == RawEntries(raw)
    ensures Get(val, "Package-List") != "" ==>
              ParseListLines(Split(Get(val, "Package-List"), '\n')) == Ok(b.0)
  {
    assert Get(m1, "Package-List") == Get(val, "Package-List");
  }

  /** Every Vcs field looks like one. */
  lemma VcsKeysLike()
    ensures forall k :: k in VcsKeys ==> VcsLike(k)
  {
  }

  /** The Format field survives every earlier step. */
  lemma FormatKept(val: MapT, m1: MapT, m2: MapT, m3: MapT, m4: MapT)
    requires m1 == val - HeaderKeys
    requires m2 == m1 - {"Binary"} - {"Package-List"}
    requires m3 == m2 - FileKeys
    requires m4 == m3 - (set t | t in VcsTags :: VcsKey(t))
    ensures "Format" in m4 <==> "Format" in val
    ensures "Format" in val ==> m4["Format"] == val["Format"]
  {
    StepsSoFar(val, m1, m2, m3, m4);
    FormatNotEarly();
  }

  lemma FormatNotEarly()
    ensures "Format" !in EarlyKeys
  {
    FormatNotVcs();
    FormatNotHeader();
  }

  lemma FormatNotVcs()
    ensures "Format" !in VcsKeys
  {
    VcsKeysLike();
    assert !VcsLike("Format") by {
      assert "Format"[1] == 'o';
    }
  }

  lemma FormatNotHeader()
    ensures "Format" !in HeaderKeys && "Format" !in FileKeys
  {
  }

  /** The fields consumed before the format step. */
  const EarlyKeys: set<string> := HeaderKeys + {"Binary", "Package-List"} + FileKeys + VcsKeys

  /** The steps before the format step remove exactly their own fields. */
  lemma StepsSoFar(val: MapT, m1: MapT, m2: MapT, m3: MapT, m4: MapT)
    requires m1 == val - HeaderKeys
    requires m2 == m1 - {"Binary"} - {"Package-List"}
    requires m3 == m2 - FileKeys
    requires m4 == m3 - (set t | t in VcsTags :: VcsKey(t))
    ensures m4 == val - EarlyKeys
  {
    var listKeys: set<string> := {"Binary", "Package-List"};
    assert HeaderKeys + {"Binary"} + {"Package-List"} == HeaderKeys + listKeys;
    SubtractTwice(val, HeaderKeys, {"Binary"});
    SubtractTwice(val, HeaderKeys + {"Binary"}, {"Package-List"});
    assert m2 == val - (HeaderKeys + listKeys);
    SubtractTwice(val, HeaderKeys + listKeys, FileKeys);
    assert m3 == val - (HeaderKeys + listKeys + FileKeys);
    SubtractTwice(val, HeaderKeys + listKeys + FileKeys, VcsKeys);
  }

  /** What is left after the format step is the record less every consumed field. */
  lemma LeftoverKeys(val: MapT, m1: MapT, m2: MapT, m3: MapT, m4: MapT)
    requires m1 == val - HeaderKeys
    requires m2 == m1 - {"Binary"} - {"Package-List"}
    requires m3 == m2 - FileKeys
    requires m4 == m3 - (set t | t in VcsTags :: VcsKey(t))
    ensures m4 - {"Format"} == val - ConsumedKeys
  {
    StepsSoFar(val, m1, m2, m3, m4);
    SubtractTwice(val, EarlyKeys, {"Format"});
  }

  /** Starts like a Vcs field name. */
  predicate VcsLike(k: string) {
    |k| >= 4 && k[0] == 'V' && k[1] == 'c'
  }

  /** No field consumed before the Vcs step is a Vcs field. */
  lemma OtherKeysPrefix()
    ensures forall k :: k in HeaderKeys + {"Binary", "Package-List"} + FileKeys ==> !VcsLike(k)
  {
    forall k | k in HeaderKeys + {"Binary", "Package-List"} + FileKeys ensures !VcsLike(k) {
      if k == "Version" {
        assert k[1] == 'e';
      }
    }
  }

  /** The Vcs steps read only Vcs fields, which earlier steps leave alone. */
  lemma VcsFieldsKept(val: MapT, m1: MapT, m2: MapT, m3: MapT)
    requires m1 == val - HeaderKeys
    requires m2 == m1 - {"Binary"} - {"Package-List"}
    requires m3 == m2 - FileKeys
    ensures Vcses(m3).0 == Vcses(val).0
  {
    VcsFieldsSame(val, m3);
    SortedSame(Vcses(m3).1, Vcses(val).1);
  }

  /** Each Vcs field is listed, with the same text, before the earlier steps and after them. */
  lemma VcsFieldsSame(val: MapT, m3: MapT)
    requires m3 == val - HeaderKeys - {"Binary"} - {"Package-List"} - FileKeys
    ensures forall t :: t in VcsTags ==> (Listed(m3, t) <==> Listed(val, t))
    ensures forall t :: t in VcsTags && Listed(m3, t) ==> m3[VcsKey(t)] == val[VcsKey(t)]
  {
    forall t | t in VcsTags ensures VcsKey(t) !in HeaderKeys + {"Binary", "Package-List"} + FileKeys {
      assert VcsLike(VcsKey(t));
      OtherKeysPrefix();
    }
  }

  /**
   * The Vcs entries come out in tag order, not in the order they are
   * collected: Browser is asked for first, yet Arch is written first.
   */
  lemma VcsTagOrder(val: MapT)
    requires Listed(val, "Arch") && Listed(val, "Browser")
    requires forall t :: t in VcsTags && t != "Arch" && t != "Browser" ==> !Listed(val, t)
    ensures Vcses(val).1 == [Entry("Arch", val[VcsKey("Arch")]), Entry("Browser", val[VcsKey("Browser")])]
  {
    var want := [Entry("Arch", val[VcsKey("Arch")]), Entry("Browser", val[VcsKey("Browser")])];
    var got := Vcses(val).1;
    ArchBeforeBrowser(val[VcsKey("Arch")], val[VcsKey("Browser")]);
    SameTwoEntries(val, got);
    SortedSame(got, want);
  }

  lemma ArchBeforeBrowser(a: string, b: string)
    ensures Sorted([Entry("Arch", a), Entry("Browser", b)])
  {
    assert LexLess("Arch", "Browser");
  }

  lemma SameTwoEntries(val: MapT, got: seq<Entry>)
    requires Listed(val, "Arch") && Listed(val, "Browser")
    requires forall t :: t in VcsTags && t != "Arch" && t != "Browser" ==> !Listed(val, t)
    requires forall e :: e in got <==> e.key in VcsTags && Listed(val, e.key) && e.value == val[VcsKey(e.key)]
    ensures forall e :: e in got <==> e in [Entry("Arch", val[VcsKey("Arch")]), Entry("Browser", val[VcsKey("Browser")])]
  {
    assert "Arch" in VcsTags && "Browser" in VcsTags by {
      assert VcsTags[0] == "Browser" && VcsTags[1] == "Arch";
    }
  }
}
