/**
 * The JavaScript values that reach the client's checks (depth, timeout, lock token, port,
 * lock scope and type), their truthiness and their string conversion, and the exceptions
 * the client throws.
 */
module Js {
  import opened Text

  /** A JavaScript value, restricted to integer-valued numbers. */
  datatype JsValue = Undefined | Null | Bool(b: bool) | Num(n: int) | Str(s: string)

  /** What `if (v)` and `v || w` test. */
  predicate Truthy(v: JsValue)
  {
    match v
    case Undefined => false
    case Null => false
    case Bool(b) => b
    case Num(n) => n != 0
    case Str(s) => s != ""
  }

  /** `String(v)`, the conversion applied by `'x' + v` and by `setRequestHeader`. */
  function ToJsString(v: JsValue): string
  {
    match v
    case Undefined => "undefined"
    case Null => "null"
    case Bool(b) => if b then "true" else "false"
    case Num(n) => IntToString(n)
    case Str(s) => s
  }

  /** `typeof v !== 'undefined' && v !== null`: a value was given. */
  predicate Given(v: JsValue) { !v.Undefined? && !v.Null? }

  /**
   * The exceptions of the client. The last three are the structural failures of tree
   * assembly; in the JavaScript they surface as a `TypeError` from dereferencing
   * `undefined` (no root, no parent) or calling `push` on a missing `children` array.
   */
  datatype Error =
    | MustacheNotFound
    | InvalidDepth(depth: JsValue)
    | InvalidScope(scope: JsValue)
    | InvalidLockType(lockType: JsValue)
    | UnexpectedResponseStatus(status: int, httpMethod: string)
    | TypeError(message: string)
    | EmptyResponse
    | MissingParent(href: string, parentHref: string)
    | ParentNotCollection(href: string, parentHref: string)

  /** A number never converts to a string without a digit. */
  lemma {:induction false} NumberHasDigit(n: int)
    ensures HasDigit(ToJsString(Num(n)))
  {
    var s := ToJsString(Num(n));
    if n < 0 {
      assert IsDigit(s[1..][0]);
      assert IsDigit(s[1]);
    } else {
      assert IsDigit(s[0]);
    }
  }
}
