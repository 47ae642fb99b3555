/**
  `CoreUtils.applyUpdate` and `CoreUtils.applyUpdates`: send management
  operations to a server one at a time and turn any unsuccessful result
  into an exception.

  The management client is a function from the updates it has received so
  far (the last one being the update just sent) to the result it answers
  with; this lets a server's answer depend on everything it was sent
  before. A result is reduced to the two attributes the source inspects.
 */
module Updates {
  import opened JavaLang

  /**
    A defined model node, seen through its two renderings: `asString()`,
    which the success test compares, and `toString()`, which ends up in an
    exception message. The two differ by the node's type (a STRING node
    prints quoted, a LONG one does not), so both are kept.
   */
  datatype Node = Node(text: string, printed: string)

  /**
    The result of one operation: its `outcome` attribute when it is
    defined, and the printed text of its `failure-description` when that is
    defined.
   */
  datatype Response = Response(outcome: Option<Node>, failureDescription: Option<string>)

  /** The two RuntimeExceptions `applyUpdate` throws. */
  datatype UpdateError =
    | Failed(description: string)           // the result's failure description
    | NotSuccessful(outcome: Option<Node>)   // no failure description: the outcome, if any

  /** How `applyUpdate` ends: it returns normally, or it throws. */
  datatype Outcome = Succeeded | Threw(error: UpdateError)

  /**
    The outcome test of `applyUpdate`: success exactly when the outcome is
    defined and is "success"; otherwise the failure description when the
    result has one, else the generic failure.
   */
  function ApplyUpdate(result: Response): (o: Outcome)
    ensures o.Succeeded? <==> result.outcome.Some? && result.outcome.value.text == "success"
    ensures o.Threw? && result.failureDescription.Some? ==> o.error == Failed(result.failureDescription.value)
    ensures o.Threw? && result.failureDescription.None? ==> o.error == NotSuccessful(result.outcome)
  {
    if result.outcome.Some? && result.outcome.value.text == "success" then Succeeded
    else if result.failureDescription.Some? then Threw(Failed(result.failureDescription.value))
    else Threw(NotSuccessful(result.outcome))
  }

  /** The fixed start of the generic failure's message. */
  const NotSuccessfulPrefix := "Operation not successful; outcome = "

  /**
    The exception's message: the failure description, or the generic text
    followed by the outcome node as it prints itself; an undefined outcome
    prints as "undefined".
   */
  function Message(e: UpdateError): (m: string)
    ensures e.Failed? ==> m == e.description
    ensures e.NotSuccessful? ==> NotSuccessfulPrefix <= m
    ensures e == NotSuccessful(None) ==> m[|NotSuccessfulPrefix|..] == "undefined"
    ensures e.NotSuccessful? && e.outcome.Some? ==> m[|NotSuccessfulPrefix|..] == e.outcome.value.printed
  {
    match e
    case Failed(description) => description
    case NotSuccessful(outcome) =>
      NotSuccessfulPrefix + (match outcome case None => "undefined" case Some(n) => n.printed)
  }

  /** The `n`-th update (counting from 1) succeeds, given what the server was sent up to and including it. */
  predicate UpdateSucceeds<U>(updates: seq<U>, client: seq<U> -> Response, n: int)
    requires 0 < n <= |updates|
  {
    ApplyUpdate(client(updates[..n])).Succeeded?
  }

  /**
    `applyUpdates(updates, client)`: applies the updates in list order and
    stops at the first that throws. `executed` is how many were sent. The
    call returns normally exactly when every update succeeded; otherwise it
    throws what the last update sent threw, and every earlier one succeeded.
   */
  method ApplyUpdates<U>(updates: seq<U>, client: seq<U> -> Response) returns (outcome: Outcome, executed: nat)
    ensures executed <= |updates|
    ensures forall n :: 0 < n < executed ==> UpdateSucceeds(updates, client, n)
    ensures outcome.Succeeded? ==> executed == |updates| && forall n :: 0 < n <= |updates| ==> UpdateSucceeds(updates, client, n)
    ensures outcome.Threw? ==> 0 < executed && outcome == ApplyUpdate(client(updates[..executed]))
    ensures outcome.Threw? ==> !UpdateSucceeds(updates, client, executed)
    ensures (forall n :: 0 < n <= |updates| ==> UpdateSucceeds(updates, client, n)) ==> outcome.Succeeded?
  {
    executed := 0;
    while executed < |updates|
      invariant executed <= |updates|
      invariant forall n :: 0 < n <= executed ==> UpdateSucceeds(updates, client, n)
    {
      var result := client(updates[..executed + 1]);
      executed := executed + 1;
      outcome := ApplyUpdate(result);
      if outcome.Threw? {
        return;
      }
    }
    outcome := Succeeded;
  }
}
