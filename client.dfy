/**
 * The client object and the requests it prepares: construction with its defaults, the
 * request target, and the headers and body of PROPFIND, PROPPATCH, LOCK, COPY and MOVE.
 * Headers are returned in the order the client sets them instead of being set on an
 * XMLHttpRequest. Two variants of the client exist (carcass.js and carcass.old.js); where
 * they differ, the functions take the `Variant`.
 */
module Client {
  import opened Base
  import opened Text
  import opened Js
  import opened Namespaces
  import opened Templates

  /** `Current` is carcass.js, `Legacy` is carcass.old.js. */
  datatype Variant = Current | Legacy

  const DefaultPort := 80
  const DefaultProtocol := "http"
  const DefaultCharset := "UTF-8"
  const HeaderTimeoutMax := 4100000000
  const DefaultTimeout := 1000

  /** The browser's `location` fields the constructor falls back on. */
  datatype Location = Location(hostname: string, port: string, protocol: string)

  /** The browser's `document.characterSet` and `document.charset`. */
  datatype Document = Document(characterSet: JsValue, charset: JsValue)

  datatype Client = Client(variant: Variant, host: JsValue, port: JsValue, protocol: JsValue, timeout: nat)

  datatype Header = Header(name: string, value: string)

  /** What is opened and sent: method, target, headers in order, and body. */
  datatype Request = Request(httpMethod: string, target: string, headers: seq<Header>, body: Option<string>)

  /** `a || b`. */
  function Or(a: JsValue, b: JsValue): JsValue
  {
    if Truthy(a) then a else b
  }

  /** `s.replace(':', '')`: the first colon removed. */
  function RemoveFirstColon(s: string): (r: string)
    ensures ':' in s ==> exists i :: 0 <= i < |s| && s[i] == ':' && ':' !in s[..i] && r == s[..i] + s[i + 1..]
    ensures ':' !in s ==> r == s
  {
    if s == [] then s
    else if s[0] == ':' then
      assert s[..0] + s[1..] == s[1..];
      s[1..]
    else
      var rest := RemoveFirstColon(s[1..]);
      assert ':' in s ==> ':' in s[1..] by {
        if ':' in s {
          var k :| 0 <= k < |s| && s[k] == ':';
          assert s[1..][k - 1] == ':';
        }
      }
      if ':' in s then
        var j :| 0 <= j < |s| - 1 && s[1..][j] == ':' && ':' !in s[1..][..j] && rest == s[1..][..j] + s[1..][j + 1..];
        FirstColonShift(s, rest, j);
        [s[0]] + rest
      else
        [s[0]] + rest
  }

  /** The first colon of `s[1..]` at `j` is the first colon of `s` at `j + 1` when `s[0]` is not one. */
  lemma FirstColonShift(s: string, rest: string, j: nat)
    requires s != [] && s[0] != ':' && j < |s| - 1
    requires s[1..][j] == ':' && ':' !in s[1..][..j] && rest == s[1..][..j] + s[1..][j + 1..]
    ensures s[j + 1] == ':' && ':' !in s[..j + 1] && [s[0]] + rest == s[..j + 1] + s[j + 2..]
  {
    assert s[..j + 1] == [s[0]] + s[1..][..j];
    assert s[j + 2..] == s[1..][j + 1..];
  }



  /**
   * `new Client(host, port, protocol)`: fails without Mustache; each argument falls back on
   * the browser location and then on the defaults. The legacy client also rejects a port
   * whose string form has no digit.
   */
  function NewClient(variant: Variant, mustacheLoaded: bool, location: Location,
                     host: JsValue, port: JsValue, protocol: JsValue): (r: Result<Client, Error>)
    ensures r.Ok? ==> Truthy(r.value.port) && Truthy(r.value.protocol) && r.value.timeout == DefaultTimeout
  {
    if !mustacheLoaded then Err(MustacheNotFound)
    else
      var h := Or(host, Str(location.hostname));
      var p := Or(port, Or(Str(location.port), Num(DefaultPort)));
      var s := Or(protocol, Or(Str(RemoveFirstColon(location.protocol)), Str(DefaultProtocol)));
      if variant == Legacy && !HasDigit(ToJsString(p)) then
        Err(TypeError("Invalid port number '" + ToJsString(p) + "'"))
      else Ok(Client(variant, h, p, s, DefaultTimeout))
  }

  /**
   * The legacy port check rejects exactly the ports whose string form has no digit; a
   * numeric port, and so the default port 80, always passes. The current client accepts
   * every port.
   */
  lemma PortCheck(variant: Variant, location: Location, host: JsValue, port: JsValue, protocol: JsValue)
    ensures var p := Or(port, Or(Str(location.port), Num(DefaultPort)));
            && (NewClient(variant, true, location, host, port, protocol).Err? <==> variant == Legacy && !HasDigit(ToJsString(p)))
            && (p.Num? ==> NewClient(variant, true, location, host, port, protocol).Ok?)
  {
    var p := Or(port, Or(Str(location.port), Num(DefaultPort)));
    if p.Num? { NumberHasDigit(p.n); }
  }

  /** With nothing given and an empty location, the client talks http on port 80. */
  lemma ClientDefaults(variant: Variant)
    ensures var r := NewClient(variant, true, Location("", "", ""), Undefined, Undefined, Undefined);
            r.Ok? && r.value.port == Num(80) && r.value.protocol == Str("http")
  {
    NumberHasDigit(80);
  }

  /** `protocol://host:port` of the client. */
  function Origin(c: Client): string
  {
    ToJsString(c.protocol) + "://" + ToJsString(c.host) + ":" + ToJsString(c.port)
  }

  /**
   * `open(method, path)`: the current client always puts a `/` between port and path; the
   * legacy client only when the path does not already start with one.
   */
  function OpenUrl(variant: Variant, c: Client, path: string): string
  {
    match variant
    case Current => Origin(c) + "/" + path
    case Legacy => Origin(c) + (if StartsWith(path, "/") then "" else "/") + path
  }

  /**
   * The two ways of building the URL agree exactly on relative paths; the legacy client gives
   * a relative path and its absolute form the same URL, where the current client doubles the
   * slash of an absolute path.
   */
  lemma OpenUrlVariants(c: Client, path: string)
    ensures OpenUrl(Legacy, c, path) == OpenUrl(Current, c, path) <==> !StartsWith(path, "/")
    ensures !StartsWith(path, "/") ==> OpenUrl(Legacy, c, "/" + path) == OpenUrl(Legacy, c, path)
    ensures OpenUrl(Current, c, "/" + path) == Origin(c) + "//" + path
  {
    if StartsWith(path, "/") {
      var a := OpenUrl(Legacy, c, path);
      var b := OpenUrl(Current, c, path);
      assert |b| == |a| + 1;
    }
    assert StartsWith("/" + path, "/") by { assert ("/" + path)[..1] == "/"; }
  }

  /**
   * The target the request methods open: the current client goes through `open`; the
   * legacy request methods call the XMLHttpRequest's `open` with the path as given.
   */
  function RequestTarget(c: Client, path: string): string
  {
    match c.variant
    case Current => OpenUrl(Current, c, path)
    case Legacy => path
  }

  /** `setLock(lockToken)`: an `If` header `<token>` for a truthy token, nothing otherwise. */
  function SetLock(lockToken: JsValue): (hs: seq<Header>)
    ensures |hs| <= 1
    ensures hs != [] <==> Truthy(lockToken)
    ensures hs != [] ==> hs[0].name == "If" && StartsWith(hs[0].value, "<") && EndsWith(hs[0].value, ">")
  {
    if Truthy(lockToken) then [Header("If", "<" + ToJsString(lockToken) + ">")] else []
  }

  /** The token comes back out of the `If` header between the angle brackets. */
  lemma SetLockToken(lockToken: JsValue)
    requires Truthy(lockToken)
    ensures var v := SetLock(lockToken)[0].value; v[1..|v| - 1] == ToJsString(lockToken)
  {
  }

  /**
   * `setCharset(charset)`: the charset given, else the document's, else `UTF-8`; it is sent
   * in the `Content-type` header and returned as the body's encoding.
   */
  function SetCharset(charset: JsValue, document: Document): (r: (string, Header))
    ensures r.1 == Header("Content-type", "text/xml; charset=" + r.0)
  {
    var cs := Or(charset, Or(document.characterSet, Or(document.charset, Str(DefaultCharset))));
    (ToJsString(cs), Header("Content-type", "text/xml; charset=" + ToJsString(cs)))
  }

  /** The chosen charset is never empty, is the caller's when truthy, and `UTF-8` when nothing is set. */
  lemma {:induction false} CharsetChoice(charset: JsValue, document: Document)
    ensures SetCharset(charset, document).0 != ""
    ensures Truthy(charset) ==> SetCharset(charset, document).0 == ToJsString(charset)
    ensures !Truthy(charset) && !Truthy(document.characterSet) && !Truthy(document.charset) ==>
              SetCharset(charset, document).0 == DefaultCharset
  {
    var cs := Or(charset, Or(document.characterSet, Or(document.charset, Str(DefaultCharset))));
    assert Truthy(cs);
    match cs
    case Num(n) => assert |IntToString(n)| > 0;
    case _ =>
  }

  // ---------------------------------------------------------------------------------------
  // Depth, scope, type and timeout
  // ---------------------------------------------------------------------------------------

  /** `typeof depth === 'string' && depth.toLowerCase() === 'infinity'`. */
  predicate IsInfinity(depth: JsValue)
  {
    depth.Str? && LowerAscii(depth.s) == "infinity"
  }

  /**
   * The Depth check of PROPFIND (`allowOne`) and LOCK: no header when no depth is given;
   * otherwise the string "infinity" in any case, or the number 0 (or 1 for PROPFIND), sent
   * as its string form; anything else, the strings "0" and "1" included, is `InvalidDepth`.
   */
  function DepthHeader(depth: JsValue, allowOne: bool): Result<seq<Header>, Error>
  {
    if !Given(depth) then Ok([])
    else if IsInfinity(depth) || depth == Num(0) || (allowOne && depth == Num(1)) then
      Ok([Header("Depth", ToJsString(depth))])
    else Err(InvalidDepth(depth))
  }

  /**
   * Every Depth header sent is one of the values of section 10.2 of RFC 4918, "0", "1" or
   * "infinity" (compared without case), and "1" only for PROPFIND; a given depth is either
   * sent once or rejected.
   */
  lemma DepthHeaderValues(depth: JsValue, allowOne: bool)
    ensures DepthHeader(depth, allowOne).Ok? && DepthHeader(depth, allowOne).value != [] ==>
              var v := LowerAscii(DepthHeader(depth, allowOne).value[0].value);
              v == "0" || (allowOne && v == "1") || v == "infinity"
    ensures !Given(depth) ==> DepthHeader(depth, allowOne) == Ok([])
    ensures Given(depth) && DepthHeader(depth, allowOne).Ok? ==> |DepthHeader(depth, allowOne).value| == 1
  {
    if Given(depth) && DepthHeader(depth, allowOne).Ok? {
      if depth == Num(0) {
        assert ToJsString(depth) == "0";
        assert LowerAscii("0") == "0";
      } else if depth == Num(1) {
        assert ToJsString(depth) == "1";
        assert LowerAscii("1") == "1";
      }
    }
  }

  /** The numbers 0 and 1 can be asked for, 1 only by PROPFIND. */
  lemma DepthHeaderNumbers(allowOne: bool)
    ensures DepthHeader(Num(0), allowOne) == Ok([Header("Depth", "0")])
    ensures DepthHeader(Num(1), allowOne).Ok? <==> allowOne
  {
    assert ToJsString(Num(0)) == "0";
  }

  lemma LowerInfinity()
    ensures LowerAscii("Infinity") == "infinity"
  {
    var r := LowerAscii("Infinity");
    assert r[0] == 'i' && r[1] == 'n' && r[2] == 'f' && r[3] == 'i';
    assert r[4] == 'n' && r[5] == 'i' && r[6] == 't' && r[7] == 'y';
  }

  /** "infinity" is matched in any case and sent as given. */
  lemma DepthHeaderInfinity(allowOne: bool)
    ensures DepthHeader(Str("Infinity"), allowOne) == Ok([Header("Depth", "Infinity")])
  {
    LowerInfinity();
  }

  /** The strings "0" and "1" are rejected although their numbers are accepted. */
  lemma DepthHeaderDigitStrings(allowOne: bool)
    ensures DepthHeader(Str("0"), allowOne) == Err(InvalidDepth(Str("0")))
    ensures DepthHeader(Str("1"), allowOne) == Err(InvalidDepth(Str("1")))
  {
    assert |LowerAscii("0")| == 1 && |LowerAscii("1")| == 1;
  }

  /** LOCK's scope check: "exclusive" or "shared" (sections 14.13 and 14.15 of RFC 4918). */
  predicate ValidScope(scope: JsValue) { scope == Str("exclusive") || scope == Str("shared") }

  /** LOCK's type check: "write" is the only lock type. */
  predicate ValidLockType(lockType: JsValue) { lockType == Str("write") }

  /** The `Timeout` header value (section 10.7 of RFC 4918). */
  function TimeoutValue(timeout: JsValue): string
  {
    if !Truthy(timeout) then "Infinite, Second-" + NatToString(HeaderTimeoutMax)
    else "Second-" + ToJsString(timeout)
  }

  /** A `TimeType` of section 10.7 of RFC 4918: "Infinite" or "Second-" and at most 2^32-1 seconds. */
  ghost predicate TimeType(s: string)
  {
    || s == "Infinite"
    || (StartsWith(s, "Second-") && |s| > 7 && AllDigits(s[7..]) && ParseNat(s[7..]) <= 0xFFFF_FFFF)
  }

  /** The decimal form of `HEADER_TIMEOUT_MAX`. */
  lemma TimeoutMaxDigits()
    ensures NatToString(HeaderTimeoutMax) == "4100000000"
  {
    assert NatToString(4) == "4";
    assert NatToString(41) == "41";
    assert NatToString(410) == "410";
    assert NatToString(4100) == "4100";
    assert NatToString(41000) == "41000";
    assert NatToString(410000) == "410000";
    assert NatToString(4100000) == "4100000";
    assert NatToString(41000000) == "41000000";
    assert NatToString(410000000) == "410000000";
  }

  /**
   * Without a timeout the header asks for an infinite lock, falling back to 4100000000
   * seconds: a list of two valid time types.
   */
  lemma TimeoutInfinite(timeout: JsValue)
    requires !Truthy(timeout)
    ensures TimeoutValue(timeout) == "Infinite" + ", " + ("Second-" + NatToString(HeaderTimeoutMax))
    ensures NatToString(HeaderTimeoutMax) == "4100000000"
    ensures TimeType("Infinite") && TimeType("Second-" + NatToString(HeaderTimeoutMax))
  {
    TimeoutMaxDigits();
    var s := "Second-" + NatToString(HeaderTimeoutMax);
    assert s[7..] == NatToString(HeaderTimeoutMax);
    ParseNatToString(HeaderTimeoutMax);
  }

  /** A numeric timeout gives a valid time type exactly when it is a positive number of seconds within the RFC's bound. */
  lemma TimeoutSeconds(n: int)
    requires n != 0
    ensures TimeType(TimeoutValue(Num(n))) <==> 0 < n <= 0xFFFF_FFFF
  {
    var v := TimeoutValue(Num(n));
    if n > 0 {
      assert v[7..] == NatToString(n);
      ParseNatToString(n);
    } else {
      assert v[7..][0] == '-';
    }
  }

  /**
   * LOCK's headers after the checks: Depth, then either `If` for a truthy lock token (a
   * refresh) or `Timeout`.
   */
  function LockHeaders(depth: JsValue, timeout: JsValue, lockToken: JsValue): Result<seq<Header>, Error>
  {
    match DepthHeader(depth, false)
    case Err(e) => Err(e)
    case Ok(d) =>
      Ok(d + if Truthy(lockToken) then SetLock(lockToken) else [Header("Timeout", TimeoutValue(timeout))])
  }

  // ---------------------------------------------------------------------------------------
  // Requests
  // ---------------------------------------------------------------------------------------

  function Names(hs: seq<Header>): seq<string>
  {
    seq(|hs|, i requires 0 <= i < |hs| => hs[i].name)
  }

  lemma NamesAppend(a: seq<Header>, b: seq<Header>)
    ensures Names(a + b) == Names(a) + Names(b)
  {
  }

  /** The PROPFIND request, and the caller's property list after `readNamespaces` rewrote it. */
  function Propfind(c: Client, path: string, depth: JsValue, properties: Option<Props>, document: Document)
    : Result<(Request, Option<Props>), Error>
  {
    match DepthHeader(depth, true)
    case Err(e) => Err(e)
    case Ok(d) =>
      var (encoding, contentType) := SetCharset(Undefined, document);
      match ReadNamespacesSpec(properties)
      case Err(e) => Err(e)
      case Ok((walked, namespaces)) =>
        var body := PropfindBody(encoding, HaveProperties(properties), walked, namespaces);
        Ok((Request("PROPFIND", RequestTarget(c, path), d + [contentType], Some(body)), walked))
  }

  /** PROPFIND fails on an invalid depth, and otherwise only on a hole in the property list. */
  lemma PropfindOutcome(c: Client, path: string, depth: JsValue, properties: Option<Props>, document: Document)
    ensures DepthHeader(depth, true).Err? ==> Propfind(c, path, depth, properties, document) == Err(InvalidDepth(depth))
    ensures DepthHeader(depth, true).Ok? && (properties.None? || NoHoles(properties.value)) ==>
              Propfind(c, path, depth, properties, document).Ok?
  {
    if DepthHeader(depth, true).Ok? && properties.Some? && NoHoles(properties.value) {
      WalkOk(properties.value, EmptyTable);
    }
  }

  /**
   * A PROPFIND request goes to the client's target for the path with at most one Depth
   * header, then the content type, and asks for all properties unless a non-empty array
   * was given.
   */
  lemma PropfindRequest(c: Client, path: string, depth: JsValue, properties: Option<Props>, document: Document)
    requires Propfind(c, path, depth, properties, document).Ok?
    ensures var q := Propfind(c, path, depth, properties, document).value.0;
            && Names(q.headers) == (if Given(depth) then ["Depth", "Content-type"] else ["Content-type"])
            && q.target == RequestTarget(c, path)
            && (!HaveProperties(properties) ==>
                  q.body == Some(XmlDeclaration(SetCharset(Undefined, document).0) +
                                 "<propfind xmlns=\"DAV:\"><allprop/></propfind>"))
  {
    var rn := ReadNamespacesSpec(properties).value;
    var d := DepthHeader(depth, true).value;
    var contentType := SetCharset(Undefined, document).1;
    assert Propfind(c, path, depth, properties, document).value.0.headers == d + [contentType];
    NamesAppend(d, [contentType]);
    if !HaveProperties(properties) {
      PropfindAllprop(SetCharset(Undefined, document).0, properties, rn.0, rn.1);
    }
  }

  /** The PROPPATCH request; the declarations come from `setProperties` alone. */
  function Proppatch(c: Client, path: string, setProperties: Option<Props>, deleteProperties: Option<Props>,
                     lockToken: JsValue, document: Document): Result<(Request, Option<Props>), Error>
  {
    var ifHeader := SetLock(lockToken);
    var (encoding, contentType) := SetCharset(Undefined, document);
    match ReadNamespacesSpec(setProperties)
    case Err(e) => Err(e)
    case Ok((walked, namespaces)) =>
      var body := ProppatchBody(encoding, walked, deleteProperties, namespaces);
      Ok((Request("PROPPATCH", RequestTarget(c, path), ifHeader + [contentType], Some(body)), walked))
  }

  /** What is asked to be deleted never changes the PROPPATCH request. */
  lemma ProppatchIgnoresDeletions(c: Client, path: string, setProperties: Option<Props>, d1: Option<Props>, d2: Option<Props>,
                                  lockToken: JsValue, document: Document)
    ensures Proppatch(c, path, setProperties, d1, lockToken, document) == Proppatch(c, path, setProperties, d2, lockToken, document)
  {
  }

  /**
   * PROPPATCH fails only on a hole in the list to set, and sends the `If` header exactly for
   * a truthy lock token, then the content type.
   */
  lemma ProppatchOutcome(c: Client, path: string, setProperties: Option<Props>, deleteProperties: Option<Props>,
                         lockToken: JsValue, document: Document)
    ensures (setProperties.None? || NoHoles(setProperties.value)) ==>
              Proppatch(c, path, setProperties, deleteProperties, lockToken, document).Ok?
    ensures Proppatch(c, path, setProperties, deleteProperties, lockToken, document).Ok? ==>
              Names(Proppatch(c, path, setProperties, deleteProperties, lockToken, document).value.0.headers) ==
                (if Truthy(lockToken) then ["If", "Content-type"] else ["Content-type"])
  {
    if setProperties.Some? && NoHoles(setProperties.value) {
      WalkOk(setProperties.value, EmptyTable);
    }
  }

  /** The LOCK request: scope, then type are checked before anything is opened, then the depth. */
  function Lock(c: Client, path: string, owner: JsValue, scope: JsValue, lockType: JsValue, depth: JsValue,
                timeout: JsValue, lockToken: JsValue, document: Document): Result<Request, Error>
  {
    if !ValidScope(scope) then Err(InvalidScope(scope))
    else if !ValidLockType(lockType) then Err(InvalidLockType(lockType))
    else
      match LockHeaders(depth, timeout, lockToken)
      case Err(e) => Err(e)
      case Ok(hs) =>
        var (encoding, contentType) := SetCharset(Undefined, document);
        Ok(Request("LOCK", RequestTarget(c, path), hs + [contentType], Some(LockBody(encoding, scope.s, lockType.s, owner))))
  }

  /** LOCK fails exactly on an invalid scope, type or depth, reported in that order. */
  lemma LockErrors(c: Client, path: string, owner: JsValue, scope: JsValue, lockType: JsValue, depth: JsValue,
                   timeout: JsValue, lockToken: JsValue, document: Document)
    ensures var r := Lock(c, path, owner, scope, lockType, depth, timeout, lockToken, document);
            && (r.Err? <==> !ValidScope(scope) || !ValidLockType(lockType) || DepthHeader(depth, false).Err?)
            && (!ValidScope(scope) ==> r == Err(InvalidScope(scope)))
            && (ValidScope(scope) && !ValidLockType(lockType) ==> r == Err(InvalidLockType(lockType)))
            && (ValidScope(scope) && ValidLockType(lockType) && DepthHeader(depth, false).Err? ==> r == Err(InvalidDepth(depth)))
  {
  }

  /** The names of LOCK's own headers: Depth when given, then `If` or `Timeout`. */
  lemma LockHeaderSequence(depth: JsValue, timeout: JsValue, lockToken: JsValue)
    requires LockHeaders(depth, timeout, lockToken).Ok?
    ensures Names(LockHeaders(depth, timeout, lockToken).value) ==
              (if Given(depth) then ["Depth"] else []) + (if Truthy(lockToken) then ["If"] else ["Timeout"])
  {
    var d := DepthHeader(depth, false).value;
    var tail := if Truthy(lockToken) then SetLock(lockToken) else [Header("Timeout", TimeoutValue(timeout))];
    assert LockHeaders(depth, timeout, lockToken).value == d + tail;
    assert Names(d) == (if Given(depth) then ["Depth"] else []);
    assert Names(tail) == (if Truthy(lockToken) then ["If"] else ["Timeout"]);
    NamesAppend(d, tail);
  }

  /**
   * A lock token refreshes the lock with an `If` header and no `Timeout`; without one,
   * exactly one `Timeout` header is sent and no `If`.
   */
  lemma LockHeaderNames(c: Client, path: string, owner: JsValue, scope: JsValue, lockType: JsValue, depth: JsValue,
                        timeout: JsValue, lockToken: JsValue, document: Document)
    requires Lock(c, path, owner, scope, lockType, depth, timeout, lockToken, document).Ok?
    ensures Names(Lock(c, path, owner, scope, lockType, depth, timeout, lockToken, document).value.headers) ==
              (if Given(depth) then ["Depth"] else []) + (if Truthy(lockToken) then ["If"] else ["Timeout"]) + ["Content-type"]
  {
    var hs := LockHeaders(depth, timeout, lockToken).value;
    LockHeaderSequence(depth, timeout, lockToken);
    var contentType := SetCharset(Undefined, document).1;
    assert Lock(c, path, owner, scope, lockType, depth, timeout, lockToken, document).value.headers == hs + [contentType];
    assert Names([contentType]) == ["Content-type"];
    NamesAppend(hs, [contentType]);
  }

  /** COPY: Destination as given, Overwrite T or F, Depth Infinity or 0, then the lock. */
  function Copy(c: Client, source: string, destination: JsValue, lockToken: JsValue, overwrite: JsValue, recursive: JsValue): Request
  {
    var hs := [Header("Destination", ToJsString(destination)),
               Header("Overwrite", if Truthy(overwrite) then "T" else "F"),
               Header("Depth", if Truthy(recursive) then "Infinity" else "0")];
    Request("COPY", RequestTarget(c, source), hs + SetLock(lockToken), None)
  }

  /** MOVE: Destination as given, Overwrite T or F, then the lock. */
  function Move(c: Client, source: string, destination: JsValue, lockToken: JsValue, overwrite: JsValue): Request
  {
    var hs := [Header("Destination", ToJsString(destination)),
               Header("Overwrite", if Truthy(overwrite) then "T" else "F")];
    Request("MOVE", RequestTarget(c, source), hs + SetLock(lockToken), None)
  }

  /** The value of the first header named `name`, if any. */
  function HeaderValue(hs: seq<Header>, name: string): Option<string>
  {
    if hs == [] then None
    else if hs[0].name == name then Some(hs[0].value)
    else HeaderValue(hs[1..], name)
  }

  /**
   * COPY and MOVE send an Overwrite header of section 10.6 of RFC 4918 ("T" exactly when
   * overwriting is asked for); COPY's Depth (section 9.8.3) is "Infinity" exactly for a
   * recursive copy and "0" otherwise; MOVE sends no Depth header, and both send `If` only
   * with a lock token.
   */
  lemma CopyMoveHeaders(c: Client, source: string, destination: JsValue, lockToken: JsValue, overwrite: JsValue, recursive: JsValue)
    ensures var cp := Copy(c, source, destination, lockToken, overwrite, recursive).headers;
            var mv := Move(c, source, destination, lockToken, overwrite).headers;
            && HeaderValue(cp, "Overwrite") == HeaderValue(mv, "Overwrite") == Some(if Truthy(overwrite) then "T" else "F")
            && HeaderValue(cp, "Depth") == Some(if Truthy(recursive) then "Infinity" else "0")
            && HeaderValue(mv, "Depth") == None
            && (HeaderValue(cp, "If").Some? <==> Truthy(lockToken))
            && (HeaderValue(mv, "If").Some? <==> Truthy(lockToken))
            && HeaderValue(cp, "Destination") == HeaderValue(mv, "Destination") == Some(ToJsString(destination))
  {
    var cp := Copy(c, source, destination, lockToken, overwrite, recursive).headers;
    var mv := Move(c, source, destination, lockToken, overwrite).headers;
    var lock := SetLock(lockToken);
    assert HeaderValue(lock, "Depth") == None;
    assert HeaderValue(lock, "If").Some? <==> Truthy(lockToken);
    assert cp[3..] == lock;
    assert mv[2..] == lock;
    assert HeaderValue(cp, "Depth") == HeaderValue(cp[1..], "Depth") == HeaderValue(cp[2..], "Depth");
    assert HeaderValue(cp, "If") == HeaderValue(cp[1..], "If") == HeaderValue(cp[2..], "If") == HeaderValue(cp[3..], "If");
    assert HeaderValue(mv, "Depth") == HeaderValue(mv[1..], "Depth") == HeaderValue(mv[2..], "Depth");
    assert HeaderValue(mv, "If") == HeaderValue(mv[1..], "If") == HeaderValue(mv[2..], "If");
  }
}
