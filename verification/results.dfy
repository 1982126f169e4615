/** Failure-compatible result type and the exceptions the generator pipeline can raise. */
module Results {

  datatype Option<+T> = None | Some(value: T)

  /** The JVM exceptions that the modelled code throws or lets escape. */
  datatype Error =
    | IOError(message: string)               // java.io.IOException
    | IllegalState(message: string)          // kotlin `error(...)`
    | NoSuchField(message: string)           // a generated class spec without a name
    | NoSuchElement(message: string)         // `List.first()` on an empty list
    | ClassCast                              // `getAsJsonObject` on an element that is not an object
    | UnsupportedOperation(message: string)  // `getAsString` on a JSON object
    | FileParse(message: string)             // the YAML parser's internal FileParseException
    | JsonParse(message: string)             // Gson's JsonParseException
    | NullPointer                            // a member call on the `null` Gson returns for an empty file

  datatype Result<+T> = Ok(value: T) | Fail(error: Error) {

    predicate IsFailure() {
      Fail?
    }

    function PropagateFailure<U>(): Result<U>
      requires Fail?
    {
      Fail(error)
    }

    function Extract(): T
      requires Ok?
    {
      value
    }
  }

  /** Apply `f` to every element in order; the first failure aborts and is returned. */
  function MapResult<A, B>(xs: seq<A>, f: A -> Result<B>): (r: Result<seq<B>>)
    ensures r.Ok? <==> forall i | 0 <= i < |xs| :: f(xs[i]).Ok?
    ensures r.Ok? ==> |r.value| == |xs| && forall i | 0 <= i < |xs| :: f(xs[i]) == Ok(r.value[i])
    ensures r.Fail? ==> exists i | 0 <= i < |xs| ::
      && (forall j | 0 <= j < i :: f(xs[j]).Ok?)
      && f(xs[i]) == Fail(r.error)
  {
    if |xs| == 0 then Ok([])
    else
      var first := f(xs[0]);
      if first.Fail? then Fail(first.error)
      else
        var rest := MapResult(xs[1..], f);
        assert forall i | 1 <= i < |xs| :: xs[1..][i - 1] == xs[i];
        if rest.Fail? then Fail(rest.error)
        else Ok([first.value] + rest.value)
  }
}
