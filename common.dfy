/** Failure-compatible wrappers shared by every module of the model. */
module Common {

  /** Rust's `Option<T>`. */
  datatype Option<T> = None | Some(value: T) {

    /** `Option::unwrap_or`. */
    function GetOr(default: T): T {
      if Some? then value else default
    }

    /** `Option::or` / `Option::or_else`: keep `this` when present. */
    function Or(other: Option<T>): Option<T> {
      if Some? then this else other
    }
  }

  /** Rust's `Result<T, E>`. */
  datatype Result<T, E> = Ok(value: T) | Err(error: E)

  /** The present values, in order (`Iterator::filter_map` / `flatten`). */
  function Somes<T>(opts: seq<Option<T>>): (vals: seq<T>)
    ensures |vals| <= |opts|
    ensures forall v | v in vals :: Some(v) in opts
    decreases |opts|
  {
    if opts == [] then []
    else if opts[0].Some? then [opts[0].value] + Somes(opts[1..])
    else Somes(opts[1..])
  }

  lemma {:induction false} SomesAppend<T>(a: seq<Option<T>>, b: seq<Option<T>>)
    ensures Somes(a + b) == Somes(a) + Somes(b)
    decreases |a|
  {
    if a == [] {
      assert a + b == b;
    } else {
      assert (a + b)[0] == a[0];
      assert (a + b)[1..] == a[1..] + b;
      SomesAppend(a[1..], b);
    }
  }

  lemma {:induction false} SomesHas<T>(opts: seq<Option<T>>, k: nat)
    requires k < |opts| && opts[k].Some?
    ensures opts[k].value in Somes(opts)
    decreases |opts|
  {
    if k > 0 {
      SomesHas(opts[1..], k - 1);
    }
  }

  /**
   * Items read one after another until one fails: the first failure, or
   * else the present values in order.
   */
  function FirstErr<T, E>(rs: seq<Result<Option<T>, E>>): Result<seq<T>, E>
    decreases |rs|
  {
    if rs == [] then Ok([])
    else
      match rs[0]
      case Err(e) => Err(e)
      case Ok(o) =>
        match FirstErr(rs[1..])
        case Err(e) => Err(e)
        case Ok(rest) => Ok(if o.Some? then [o.value] + rest else rest)
  }

  /** The read fails exactly when some item fails. */
  lemma {:induction false} FirstErrFails<T, E>(rs: seq<Result<Option<T>, E>>)
    ensures FirstErr(rs).Err? ==> exists i | 0 <= i < |rs| :: rs[i].Err?
    ensures (exists i | 0 <= i < |rs| :: rs[i].Err?) ==> FirstErr(rs).Err?
    decreases |rs|
  {
    if rs != [] {
      FirstErrFails(rs[1..]);
      assert forall i | 0 < i < |rs| :: rs[1..][i - 1] == rs[i];
      if FirstErr(rs).Err? && rs[0].Ok? {
        var j :| 0 <= j < |rs[1..]| && rs[1..][j].Err?;
        assert rs[j + 1].Err?;
      }
    }
  }

  /** When no item fails, the values are the present ones of `opts`, item by item. */
  lemma {:induction false} FirstErrValues<T, E>(rs: seq<Result<Option<T>, E>>, opts: seq<Option<T>>)
    requires |rs| == |opts| && FirstErr(rs).Ok?
    requires forall i | 0 <= i < |rs| && rs[i].Ok? :: rs[i].value == opts[i]
    ensures FirstErr(rs).value == Somes(opts)
    decreases |rs|
  {
    if rs != [] {
      assert forall i | 0 <= i < |rs| - 1 :: rs[1..][i] == rs[i + 1] && opts[1..][i] == opts[i + 1];
      FirstErrValues(rs[1..], opts[1..]);
    }
  }
}
