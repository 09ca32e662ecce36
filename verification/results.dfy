/** Rust-style Option and Result, both usable with Dafny's `:-` operator. */
module Results {

  datatype Option<+T> = None | Some(value: T) {

    function UnwrapOr(default: T): T {
      match this
      case Some(v) => v
      case None => default
    }
  }

  datatype Result<+T, +E> = Ok(value: T) | Err(error: E) {

    predicate IsFailure() {
      Err?
    }

    function PropagateFailure<U>(): Result<U, E>
      requires Err?
    {
      Err(error)
    }

    function Extract(): T
      requires Ok?
    {
      value
    }

    /** Wraps the error, as anyhow's `with_context` does. */
    function MapErr<F>(wrap: E -> F): Result<T, F> {
      match this
      case Ok(v) => Ok(v)
      case Err(e) => Err(wrap(e))
    }
  }

  /** Runs through results in order: the first error stops the run, otherwise every value is kept. */
  function Collect<T, E>(rs: seq<Result<T, E>>): Result<seq<T>, E> {
    if |rs| == 0 then Ok([])
    else if rs[0].Err? then Err(rs[0].error)
    else
      var rest :- Collect(rs[1..]);
      Ok([rs[0].value] + rest)
  }

  /** The run succeeds iff every result is a value, and then it holds those values in order. */
  lemma {:induction false} CollectOk<T, E>(rs: seq<Result<T, E>>)
    ensures Collect(rs).Ok? <==> forall i :: 0 <= i < |rs| ==> rs[i].Ok?
    ensures Collect(rs).Ok? ==> |Collect(rs).value| == |rs|
    ensures Collect(rs).Ok? ==> forall i :: 0 <= i < |rs| ==> Collect(rs).value[i] == rs[i].value
  {
    if |rs| > 0 {
      CollectOk(rs[1..]);
      if rs[0].Ok? && !Collect(rs[1..]).Ok? {
        var i :| 0 <= i < |rs[1..]| && !rs[1..][i].Ok?;
        assert rs[i + 1] == rs[1..][i];
      }
      if Collect(rs).Ok? {
        forall i | 0 <= i < |rs| ensures rs[i].Ok? && Collect(rs).value[i] == rs[i].value {
          if i > 0 {
            assert rs[i] == rs[1..][i - 1];
          }
        }
      }
    }
  }

  /** A failed run carries the error of the first result that is an error. */
  lemma {:induction false} CollectErr<T, E>(rs: seq<Result<T, E>>)
    ensures Collect(rs).Err? ==>
              exists i :: 0 <= i < |rs| && rs[i].Err? && Collect(rs).error == rs[i].error
                          && forall j :: 0 <= j < i ==> rs[j].Ok?
  {
    if |rs| > 0 && rs[0].Ok? && Collect(rs).Err? {
      CollectErr(rs[1..]);
      var i :| 0 <= i < |rs[1..]| && rs[1..][i].Err? && Collect(rs[1..]).error == rs[1..][i].error
               && forall j :: 0 <= j < i ==> rs[1..][j].Ok?;
      assert rs[i + 1] == rs[1..][i];
      forall j | 0 <= j < i + 1 ensures rs[j].Ok? {
        if j > 0 {
          assert rs[j] == rs[1..][j - 1];
        }
      }
    }
  }
}
