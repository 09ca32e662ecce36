/**
 * Resolving an index file against a Release file's content list
 * (fapt-pkg/src/lists.rs): prefer the gzip-compressed variant when the
 * Release file lists one, but always insist on the uncompressed entry,
 * whose digest names the file in the local content-addressed store.
 */
module Lists {
  import opened Results
  import opened Collections
  import opened Errors

  type Byte = b: int | 0 <= b < 256

  type Md5Digest = s: seq<Byte> | |s| == 16 witness seq(16, _ => 0)

  type Sha256Digest = s: seq<Byte> | |s| == 32 witness seq(32, _ => 0)

  /** `Hashes` (fapt-pkg/src/lib.rs:32-36): two fixed-length digests, otherwise uninterpreted. */
  datatype Hashes = Hashes(md5: Md5Digest, sha256: Sha256Digest)

  /** One file entry of a Release file. */
  datatype ReleaseContent = ReleaseContent(name: string, hashes: Hashes)

  /** `Compression`; `Uncompressed` is the source's `None`. */
  datatype Compression = Uncompressed | Gz

  /** `Compression::suffix`: what the codec appends to a file name. */
  function Suffix(c: Compression): (r: string)
    ensures c.Uncompressed? <==> r == ""
    ensures c.Gz? ==> r == ".gz"
  {
    match c
    case Uncompressed => ""
    case Gz => ".gz"
  }

  /** A file to download: where it is, how it is compressed, and the digests before and after decompression. */
  datatype List = List(path: string, codec: Compression, compressedHashes: Hashes, decompressedHashes: Hashes)

  /** The gzip variant's name never coincides with the plain name, so the scan's two branches never compete. */
  lemma GzNameDiffers(base: string)
    ensures base + Suffix(Gz) != base
  {
    assert |base + Suffix(Gz)| == |base| + 3;
  }

  /** The hashes of the last entry called `name`, if any. */
  function LastWith(contents: seq<ReleaseContent>, name: string): Option<Hashes> {
    if |contents| == 0 then None
    else if contents[|contents| - 1].name == name then Some(contents[|contents| - 1].hashes)
    else LastWith(contents[..|contents| - 1], name)
  }

  /** `LastWith` finds hashes iff some entry has the name. */
  lemma {:induction false} LastWithFound(contents: seq<ReleaseContent>, name: string)
    ensures LastWith(contents, name).Some? <==> exists i :: 0 <= i < |contents| && contents[i].name == name
    decreases |contents|
  {
    if |contents| > 0 {
      var n := |contents| - 1;
      if contents[n].name != name {
        LastWithFound(contents[..n], name);
        FrontIndices(contents);
        if exists i :: 0 <= i < |contents| && contents[i].name == name {
          var i :| 0 <= i < |contents| && contents[i].name == name;
          assert contents[..n][i].name == name;
        }
      }
    }
  }

  /** What `LastWith` finds belongs to an entry of that name with none of that name after it. */
  lemma {:induction false} LastWithBelongs(contents: seq<ReleaseContent>, name: string)
    requires LastWith(contents, name).Some?
    ensures exists i :: 0 <= i < |contents| && contents[i] == ReleaseContent(name, LastWith(contents, name).value)
                        && forall j :: i < j < |contents| ==> contents[j].name != name
    decreases |contents|
  {
    var n := |contents| - 1;
    if contents[n].name != name {
      var front := contents[..n];
      LastWithBelongs(front, name);
      FrontIndices(contents);
      var i :| 0 <= i < |front| && front[i] == ReleaseContent(name, LastWith(front, name).value)
               && forall j :: i < j < |front| ==> front[j].name != name;
      assert contents[i] == front[i];
    }
  }

  lemma FrontIndices(contents: seq<ReleaseContent>)
    requires |contents| > 0
    ensures forall i :: 0 <= i < |contents| - 1 ==> contents[..|contents| - 1][i] == contents[i]
  {
  }

  /**
   * The resolution rule of `find_file`: the plain entry must exist and
   * always supplies the decompressed hashes; a gzip entry, when present,
   * becomes the download with its own compressed hashes.
   */
  function FindFile(contents: seq<ReleaseContent>, base: string): (r: Result<List, Error>)
    ensures r.Err? <==> forall i :: 0 <= i < |contents| ==> contents[i].name != base
    ensures r.Err? ==> r.error == FileNotFoundInRelease
    ensures r.Ok? ==> Some(r.value.decompressedHashes) == LastWith(contents, base)
    ensures r.Ok? && LastWith(contents, base + ".gz").Some? ==>
              r.value == List(base + ".gz", Gz, LastWith(contents, base + ".gz").value, r.value.decompressedHashes)
    ensures r.Ok? && LastWith(contents, base + ".gz").None? ==>
              r.value == List(base, Uncompressed, r.value.decompressedHashes, r.value.decompressedHashes)
  {
    var gzName := base + Suffix(Gz);
    LastWithFound(contents, base);
    match LastWith(contents, base)
    case None => Err(FileNotFoundInRelease)
    case Some(raw) =>
      match LastWith(contents, gzName)
      case Some(gz) => Ok(List(gzName, Gz, gz, raw))
      case None => Ok(List(base, Uncompressed, raw, raw))
  }

  /** `find_file` as written: one pass over the entries, remembering the last match of each name. */
  method FindFileScan(contents: seq<ReleaseContent>, base: string) returns (r: Result<List, Error>)
    ensures r == FindFile(contents, base)
  {
    var gzName := base + Suffix(Gz);
    GzNameDiffers(base);
    var gzHashes: Option<Hashes> := None;
    var rawHashes: Option<Hashes> := None;
    for i := 0 to |contents|
      invariant rawHashes == LastWith(contents[..i], base)
      invariant gzHashes == LastWith(contents[..i], gzName)
    {
      assert contents[..i + 1][..i] == contents[..i];
      if contents[i].name == base {
        rawHashes := Some(contents[i].hashes);
      } else if contents[i].name == gzName {
        gzHashes := Some(contents[i].hashes);
      }
    }
    assert contents[..|contents|] == contents;
    if rawHashes.None? {
      return Err(FileNotFoundInRelease);
    }
    var raw := rawHashes.value;
    match gzHashes
    case Some(gz) =>
      r := Ok(List(gzName, Gz, gz, raw));
    case None =>
      r := Ok(List(base, Uncompressed, raw, raw));
  }

  /**
   * Worked case: with `Packages` and `Packages.gz` listed, the gzip file is
   * fetched and checked against its own hashes, then against the plain
   * entry's hashes once decompressed; with only `Packages`, one set of
   * hashes serves both.
   */
  lemma FindFileExample(h1: Hashes, h2: Hashes)
    ensures FindFile([ReleaseContent("Packages", h1), ReleaseContent("Packages.gz", h2)], "Packages")
              == Ok(List("Packages.gz", Gz, h2, h1))
    ensures FindFile([ReleaseContent("Packages", h1)], "Packages") == Ok(List("Packages", Uncompressed, h1, h1))
  {
    var both := [ReleaseContent("Packages", h1), ReleaseContent("Packages.gz", h2)];
    var one := [ReleaseContent("Packages", h1)];
    assert "Packages" + Suffix(Gz) == "Packages.gz";
    assert |"Packages"| != |"Packages.gz"|;
    assert both[..1] == one;
    assert LastWith(both, "Packages.gz") == Some(h2);
    assert LastWith(both, "Packages") == LastWith(one, "Packages") == Some(h1);
    assert LastWith(one, "Packages.gz") == None;
  }

  /** When several entries share the plain name, the last one supplies the decompressed hashes. */
  lemma LastEntryWins(front: seq<ReleaseContent>, base: string, h: Hashes, back: seq<ReleaseContent>)
    requires forall j :: 0 <= j < |back| ==> back[j].name != base
    ensures FindFile(front + [ReleaseContent(base, h)] + back, base).Ok?
    ensures FindFile(front + [ReleaseContent(base, h)] + back, base).value.decompressedHashes == h
  {
    var contents := front + [ReleaseContent(base, h)] + back;
    assert contents[|front|] == ReleaseContent(base, h);
    LastWithFound(contents, base);
    LastWithBelongs(contents, base);
    assert forall j :: |front| < j < |contents| ==> contents[j] == back[j - |front| - 1];
  }

  /** The entries not called `name`. */
  function Without(contents: seq<ReleaseContent>, name: string): (r: seq<ReleaseContent>)
    ensures forall i :: 0 <= i < |r| ==> r[i].name != name && r[i] in contents
    ensures forall c :: c in contents && c.name != name ==> c in r
  {
    if |contents| == 0 then []
    else
      var rest := Without(contents[1..], name);
      if contents[0].name == name then rest else [contents[0]] + rest
  }

  /** Dropping entries of another name does not change which entry of `name` comes last. */
  lemma {:induction false} LastWithWithout(contents: seq<ReleaseContent>, name: string, other: string)
    requires name != other
    ensures LastWith(Without(contents, other), name) == LastWith(contents, name)
    decreases |contents|
  {
    if |contents| > 0 {
      var last := contents[|contents| - 1];
      var front := contents[..|contents| - 1];
      assert contents == front + [last];
      WithoutSnoc(front, last, other);
      LastWithWithout(front, name, other);
      LastWithSnoc(front, last, name);
      if last.name != other {
        LastWithSnoc(Without(front, other), last, name);
      }
    }
  }

  /** Appending an entry: it is the last of its name, and other names look further back. */
  lemma LastWithSnoc(front: seq<ReleaseContent>, last: ReleaseContent, name: string)
    ensures LastWith(front + [last], name) == if last.name == name then Some(last.hashes) else LastWith(front, name)
  {
    assert (front + [last])[..|front|] == front;
  }

  lemma {:induction false} WithoutSnoc(front: seq<ReleaseContent>, last: ReleaseContent, other: string)
    ensures last.name == other ==> Without(front + [last], other) == Without(front, other)
    ensures last.name != other ==> Without(front + [last], other) == Without(front, other) + [last]
    decreases |front|
  {
    if |front| > 0 {
      assert (front + [last])[1..] == front[1..] + [last];
      WithoutSnoc(front[1..], last, other);
      if last.name != other {
        Assoc([front[0]], Without(front[1..], other), [last]);
      }
    } else {
      assert front + [last] == [last];
    }
  }

  /** `List::local_name`: the store key is the hex spelling of the decompressed SHA-256 digest. */
  function LocalName(l: List, hex: Sha256Digest -> string): string {
    hex(l.decompressedHashes.sha256)
  }

  /**
   * The local name is content-addressed: listing or dropping the gzip
   * variant changes the download but not the name it is stored under.
   */
  lemma LocalNameIgnoresGz(contents: seq<ReleaseContent>, base: string, hex: Sha256Digest -> string)
    requires FindFile(contents, base).Ok?
    ensures FindFile(Without(contents, base + ".gz"), base).Ok?
    ensures LocalName(FindFile(Without(contents, base + ".gz"), base).value, hex)
              == LocalName(FindFile(contents, base).value, hex)
  {
    GzNameDiffers(base);
    LastWithWithout(contents, base, base + ".gz");
  }
}
