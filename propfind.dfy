/**
 * The completion of a PROPFIND request: the `onreadystatechange` callback that checks the
 * status, assembles the resource tree from the multistatus records and passes it to the
 * caller's handler. The current client throws on a status other than 207; the legacy client
 * reports it to the handler instead, with a success flag and the status text.
 */
module PropfindResponse {
  import opened Base
  import opened Js
  import opened ResponseTree
  import opened Client

  /** The `handler` argument: left out (`undefined`), a function, or any other value (`null` included). */
  datatype Handler = Omitted | Callable | NotCallable

  /**
   * The arguments a handler is called with: `(root, resources)` by the current client,
   * `(success, statusText, root, resources)` by the legacy one, where a failed request
   * passes `null` for both the root and the resources.
   */
  datatype HandlerArgs =
    | TreeArgs(tree: Assembled)
    | StatusArgs(success: bool, statusText: string, received: Option<Assembled>)

  /** What the callback does: nothing, throw, or call the handler with these arguments. */
  datatype Outcome = Idle | Thrown(error: Error) | Called(args: HandlerArgs)

  const InvalidHandlerMessage := "Invalid handler for method 'PROPFIND'"

  /**
   * `if (typeof handler !== 'undefined') { if (typeof handler !== 'function') throw ...;
   * handler.call(...) }`: an omitted handler is skipped, anything but a function is refused.
   */
  function Dispatch(handler: Handler, args: HandlerArgs): (o: Outcome)
    ensures o == Idle <==> handler == Omitted
    ensures o.Thrown? <==> handler == NotCallable
    ensures o.Thrown? ==> o.error == TypeError(InvalidHandlerMessage)
    ensures o.Called? <==> handler == Callable
    ensures o.Called? ==> o.args == args
  {
    match handler
    case Omitted => Idle
    case NotCallable => Thrown(TypeError(InvalidHandlerMessage))
    case Callable => Called(args)
  }

  /**
   * The outcome of a request that did not answer 207 Multi-Status, before any record is read.
   */
  function Rejected(variant: Variant, status: int, statusText: string, handler: Handler): Outcome
    requires status != 207
  {
    match variant
    case Current => Thrown(UnexpectedResponseStatus(status, "PROPFIND"))
    case Legacy => Dispatch(handler, StatusArgs(false, statusText, None))
  }

  /** The arguments each client passes with a successfully assembled tree. */
  function Accepted(variant: Variant, statusText: string, tree: Assembled): HandlerArgs
  {
    match variant
    case Current => TreeArgs(tree)
    case Legacy => StatusArgs(true, statusText, Some(tree))
  }

  /**
   * Once the response is in: the current client throws on a status other than 207 whatever
   * the handler; the legacy client calls a function handler either way, and its success flag
   * is true exactly on 207, the only case that passes a tree.
   */
  lemma StatusFlag(status: int, statusText: string, tree: Assembled, handler: Handler)
    ensures status != 207 ==> Rejected(Current, status, statusText, handler) == Thrown(UnexpectedResponseStatus(status, "PROPFIND"))
    ensures var o := if status == 207 then Dispatch(Callable, Accepted(Legacy, statusText, tree))
                     else Rejected(Legacy, status, statusText, Callable);
            && o.Called? && o.args.StatusArgs? && o.args.statusText == statusText
            && (o.args.success <==> status == 207)
            && o.args.received == (if status == 207 then Some(tree) else None)
  {
  }

  /**
   * The `onreadystatechange` callback. `done` is `readyState === XMLHttpRequest.DONE` and
   * `raws` the records the XPath queries read from the multistatus body, in document order.
   * A failure of tree assembly is thrown before the handler is looked at.
   */
  method Complete(variant: Variant, done: bool, status: int, statusText: string,
                  raws: seq<RawRecord>, handler: Handler) returns (o: Outcome)
    ensures !done ==> o == Idle
    // the current client throws on any status but 207, whatever the handler
    ensures done && status != 207 && variant == Current ==> o == Thrown(UnexpectedResponseStatus(status, "PROPFIND"))
    ensures done && status != 207 && variant == Legacy ==> o == Dispatch(handler, StatusArgs(false, statusText, None))
    ensures done && status == 207 && raws == [] ==> o == Thrown(EmptyResponse)
    ensures done && status == 207 && raws != [] ==>
              var failure := LinkFailure(Records(raws), IndexOf(Records(raws), |raws|), Pending(Records(raws)));
              && (failure.Some? ==> o == Thrown(failure.value))
              && (failure.None? && handler == Omitted ==> o == Idle)
              && (failure.None? && handler == NotCallable ==> o == Thrown(TypeError(InvalidHandlerMessage)))
              && (failure.None? && handler == Callable ==>
                    exists tree: Assembled :: Tree(Records(raws), tree) &&
                      (variant == Current ==> o == Called(TreeArgs(tree))) &&
                      (variant == Legacy ==> o == Called(StatusArgs(true, statusText, Some(tree)))))
    // a legacy handler learns the outcome from its success flag: true exactly on 207, with the tree
    ensures done && variant == Legacy && handler == Callable &&
            (status != 207 || (raws != [] && LinkFailure(Records(raws), IndexOf(Records(raws), |raws|), Pending(Records(raws))).None?)) ==>
              && o.Called? && o.args.StatusArgs? && o.args.statusText == statusText
              && (o.args.success <==> status == 207)
              && (o.args.received.Some? <==> status == 207)
              && (status == 207 ==> Tree(Records(raws), o.args.received.value))
  {
    if !done {
      return Idle;
    }
    if status != 207 {
      return Rejected(variant, status, statusText, handler);
    }
    var r := Assemble(raws);
    if r.Err? {
      return Thrown(r.error);
    }
    o := Dispatch(handler, Accepted(variant, statusText, r.value));
  }
}
