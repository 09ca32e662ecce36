/**
 * Package priorities (src/parse/pkg.rs:54-70, 180-191): seven variants, and
 * the closed set of tokens the Priority field may hold.
 */
module Priorities {
  import opened Results
  import opened Errors

  datatype Priority = Unknown | Required | Important | Standard | Optional | Extra | Source

  /** The token each priority is written as in a record. */
  function PriorityName(p: Priority): string {
    match p
    case Unknown => "unknown"
    case Required => "required"
    case Important => "important"
    case Standard => "standard"
    case Optional => "optional"
    case Extra => "extra"
    case Source => "source"
  }

  /**
   * `parse_priority`: a token parses exactly when it names one of the seven
   * priorities, and then to that priority; any other token is an error that
   * names it.
   */
  function ParsePriority(s: string): (r: Result<Priority, Error>)
    ensures r.Ok? ==> PriorityName(r.value) == s
    ensures r.Err? ==> r.error == UnsupportedPriority(s)
  {
    match s
    case "required" => Ok(Required)
    case "important" => Ok(Important)
    case "standard" => Ok(Standard)
    case "optional" => Ok(Optional)
    case "extra" => Ok(Extra)
    case "source" => Ok(Source)
    case "unknown" => Ok(Unknown)
    case _ => Err(UnsupportedPriority(s))
  }

  /** Every priority's name parses back to it, so the mapping is one-to-one and onto. */
  lemma ParsePriorityName(p: Priority)
    ensures ParsePriority(PriorityName(p)) == Ok(p)
  {
  }

  /** A token parses exactly when it is the name of some priority. */
  lemma {:induction false} ParsePriorityIffNamed(s: string)
    ensures ParsePriority(s).Ok? <==> exists p :: PriorityName(p) == s
  {
    if exists p :: PriorityName(p) == s {
      var p :| PriorityName(p) == s;
      ParsePriorityName(p);
    }
  }
}
