/** Shared result types and the error kinds the glacier catalog raises. */
module Base {

  datatype Option<+T> = None | Some(value: T)

  datatype Result<+R> = Success(value: R) | Failure(error: Error)

  /** The exceptions the catalog code can raise, one constructor per cause. */
  datatype Error =
    | NotAnInteger(text: string)   // int(text) on a string that is not a decimal integer (ValueError)
    | UnknownGlacier(id: string)   // self.glaciers[gid] with an id that is not in the catalog (KeyError)
    | EmptyWorkingSet              // max()/min() of an empty working-set dict, reached when n <= 0 (ValueError)
    | NoMeasuredGlacier            // indexing [0] of an empty ranking (IndexError)
    | NoGrowth                     // "No glacier grew in latest measurements" (AssertionError)
    | NoShrinkage                  // "No glacier shrunk in latest measurements" (AssertionError)
    | DivisionByZero               // shrinkers / glaciers_with_measurements with no measured glacier

  /** m[k] as an Option: None when k is not a key. */
  function Lookup<K, V>(m: map<K, V>, k: K): (r: Option<V>)
    ensures r.Some? <==> k in m
    ensures r.Some? ==> r.value == m[k]
  {
    if k in m then Some(m[k]) else None
  }
}
