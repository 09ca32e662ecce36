/**
 * A scanned RFC822 paragraph as the Rust parsers see it: a map from field
 * name to the field's lines, and the accessors of `RfcMapExt`
 * (src/parse/types.rs:416-447) that read fields and consume them.
 */
module Rfc822 {
  import opened Results
  import opened Errors

  type Map = map<string, seq<string>>

  /** A value taken out of a map together with what is left of the map. */
  datatype Taken<T> = Taken(value: T, rest: Map)

  /**
   * `rfc822::one_line`: a field read as a single line must have exactly one
   * line.
   */
  function OneLine(lines: seq<string>): (r: Result<string, Error>)
    ensures r.Ok? <==> |lines| == 1
    ensures r.Ok? ==> r.value == lines[0]
    ensures r.Err? ==> r.error == NotOneLine(lines)
  {
    if |lines| == 1 then Ok(lines[0]) else Err(NotOneLine(lines))
  }

  /** `HashMap::remove`: the field's lines, if present, and the map without it. */
  function Remove(m: Map, key: string): (r: Taken<Option<seq<string>>>)
    ensures r.value.Some? <==> key in m
    ensures r.value.Some? ==> r.value.value == m[key]
    ensures r.rest == m - {key}
  {
    Taken(if key in m then Some(m[key]) else None, m - {key})
  }

  /** `take_err`: removes a required field; a missing one is a "missing key" error. */
  function TakeErr(m: Map, key: string): (r: Result<Taken<seq<string>>, Error>)
    ensures r.Ok? <==> key in m
    ensures r.Ok? ==> r.value.value == m[key] && r.value.rest == m - {key}
    ensures r.Err? ==> r.error == MissingKey(key)
  {
    var removed := Remove(m, key);
    match removed.value
    case Some(lines) => Ok(Taken(lines, removed.rest))
    case None => Err(MissingKey(key))
  }

  /** `take_one_line`: removes a required single-line field. */
  function TakeOneLine(m: Map, key: string): (r: Result<Taken<string>, Error>)
    ensures r.Ok? <==> key in m && |m[key]| == 1
    ensures r.Ok? ==> r.value.value == m[key][0] && r.value.rest == m - {key}
    ensures key !in m ==> r == Err(MissingKey(key))
    ensures key in m && |m[key]| != 1 ==> r == Err(NotOneLine(m[key]))
  {
    var taken :- TakeErr(m, key);
    var line :- OneLine(taken.value);
    Ok(Taken(line, taken.rest))
  }

  /**
   * `remove_one_line`: removes an optional single-line field. An absent field
   * is not an error: it reads as `None`.
   */
  function RemoveOneLine(m: Map, key: string): (r: Result<Taken<Option<string>>, Error>)
    ensures r.Ok? <==> key !in m || |m[key]| == 1
    ensures key !in m ==> r == Ok(Taken(None, m))
    ensures key in m && |m[key]| == 1 ==> r.value.value == Some(m[key][0])
    ensures r.Ok? ==> r.value.rest == m - {key}
    ensures key in m && |m[key]| != 1 ==> r == Err(NotOneLine(m[key]))
  {
    var removed := Remove(m, key);
    match removed.value
    case None =>
      assert removed.rest == m;
      Ok(Taken(None, removed.rest))
    case Some(lines) =>
      var line :- OneLine(lines);
      Ok(Taken(Some(line), removed.rest))
  }

  /** `get_value(key).one_line_req()`: reads (without removing) a required single-line field. */
  function GetOneLine(m: Map, key: string): (r: Result<string, Error>)
    ensures r.Ok? <==> key in m && |m[key]| == 1
    ensures r.Ok? ==> r.value == m[key][0]
    ensures key !in m ==> r == Err(MissingKey(key))
    ensures key in m && |m[key]| != 1 ==> r == Err(NotOneLine(m[key]))
  {
    if key in m then OneLine(m[key]) else Err(MissingKey(key))
  }

  /** `get_if_one_line`: reads (without removing) a field that has exactly one line. */
  function GetIfOneLine(m: Map, key: string): (r: Option<string>)
    ensures r.Some? <==> key in m && |m[key]| == 1
    ensures r.Some? ==> r.value == m[key][0]
  {
    if key in m then
      match OneLine(m[key])
      case Ok(line) => Some(line)
      case Err(_) => None
    else None
  }

  /** `remove(key).unwrap_or_else(Vec::new)`: an optional multi-line field, empty when absent. */
  function RemoveOrEmpty(m: Map, key: string): (r: Taken<seq<string>>)
    ensures r.value == (if key in m then m[key] else [])
    ensures r.rest == m - {key}
  {
    var removed := Remove(m, key);
    Taken(removed.value.UnwrapOr([]), removed.rest)
  }
}
