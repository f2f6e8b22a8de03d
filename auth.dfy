/** The authentication gate in front of every unary call. JWT validation is a
    collaborator passed in as `authenticate` (it maps the Authorization value it
    is handed to the resolved principal, or to nothing when the token is
    rejected); the rest of the pipeline is the `continuation`. */
module Auth {
  import opened Rpc
  import opened Seqs
  import opened Text

  /** One request metadata entry. */
  datatype Header = Header(key: string, value: string)

  /** What the interceptor reads and writes for one call: the method name, the
      request metadata, and the HTTP context's Authorization header and user. */
  datatype CallContext<P> = CallContext(methodName: string, headers: seq<Header>,
                                        authorization: Option<string>, user: Option<P>)

  const LoginSuffix := "greet.Greeter/Login"
  const AuthorizationKey := "authorization"
  const BearerPrefix := "Bearer "
  const MissingOrInvalidHeader := Status(Unauthenticated, "Missing or invalid Authorization header")
  const InvalidOrExpiredToken := Status(Unauthenticated, "Invalid or expired token")

  /** How a call is dispatched: forwarded without a check, rejected for the
      header, rejected for the token, or admitted with the value that was
      validated and the principal it resolved to. */
  datatype Decision<P> = Bypass | RejectHeader | RejectToken | Admit(authorization: string, principal: P)

  predicate IsAuthorizationKey(h: Header)
  {
    EqualsIgnoreCase(h.key, AuthorizationKey)
  }

  /** The value of the first header whose key is "authorization", ignoring case. */
  function AuthorizationValue(headers: seq<Header>): (v: Option<string>)
    ensures v.None? <==> forall i :: 0 <= i < |headers| ==> !IsAuthorizationKey(headers[i])
    ensures forall i :: 0 <= i < |headers| && IsAuthorizationKey(headers[i]) &&
                        (forall j :: 0 <= j < i ==> !IsAuthorizationKey(headers[j])) ==>
                        v == Some(headers[i].value)
  {
    match FirstIndex(headers, IsAuthorizationKey)
    case None => None
    case Some(i) => Some(headers[i].value)
  }

  /** The guard chain: bypass suffix, header lookup, Bearer prefix, token check. */
  function Decide<P>(methodName: string, headers: seq<Header>, authenticate: string -> Option<P>): Decision<P>
  {
    if EndsWithIgnoreCase(methodName, LoginSuffix) then Bypass
    else match AuthorizationValue(headers)
      case None => RejectHeader
      case Some(v) =>
        if v == [] || !StartsWith(v, BearerPrefix) then RejectHeader
        else match authenticate(v)
          case None => RejectToken
          case Some(p) => Admit(v, p)
  }

  /** The interceptor's unary handler. On admission it binds the header and the
      principal to the context before calling the continuation. */
  function UnaryServerHandler<Req, Resp, P>(request: Req, context: CallContext<P>,
                                            authenticate: string -> Option<P>,
                                            continuation: (Req, CallContext<P>) -> Result<Resp>): Result<Resp>
  {
    match Decide(context.methodName, context.headers, authenticate)
    case Bypass => continuation(request, context)
    case RejectHeader => Fail(MissingOrInvalidHeader)
    case RejectToken => Fail(InvalidOrExpiredToken)
    case Admit(v, p) => continuation(request, context.(authorization := Some(v), user := Some(p)))
  }

  /** The first "authorization" header is at index i. */
  ghost predicate FirstAuthorizationAt(headers: seq<Header>, i: int)
  {
    0 <= i < |headers| && IsAuthorizationKey(headers[i]) &&
    forall j :: 0 <= j < i ==> !IsAuthorizationKey(headers[j])
  }

  /** Each outcome of the gate, characterised in terms of the headers. */
  lemma DecisionCases<P>(methodName: string, headers: seq<Header>, authenticate: string -> Option<P>)
    ensures var d := Decide(methodName, headers, authenticate);
            var bypass := EndsWithIgnoreCase(methodName, LoginSuffix);
            (d.Bypass? <==> bypass) &&
            (d.RejectHeader? <==>
               !bypass && forall i :: FirstAuthorizationAt(headers, i) ==> !StartsWith(headers[i].value, BearerPrefix)) &&
            (d.RejectToken? <==>
               !bypass && exists i :: FirstAuthorizationAt(headers, i) && StartsWith(headers[i].value, BearerPrefix) &&
                                      authenticate(headers[i].value).None?) &&
            (d.Admit? <==>
               !bypass && exists i :: FirstAuthorizationAt(headers, i) && StartsWith(headers[i].value, BearerPrefix) &&
                                      authenticate(headers[i].value).Some?) &&
            (d.Admit? ==>
               exists i :: FirstAuthorizationAt(headers, i) && d.authorization == headers[i].value &&
                           authenticate(d.authorization) == Some(d.principal))
  {
    var v := AuthorizationValue(headers);
    var k := FirstIndex(headers, IsAuthorizationKey);
    if k.Some? {
      assert FirstAuthorizationAt(headers, k.value);
      forall i | FirstAuthorizationAt(headers, i) ensures i == k.value {
      }
    }
  }

  /** A method ending in the exempt suffix reaches the continuation untouched,
      whatever its headers. */
  lemma BypassForwardsUnchanged<Req, Resp, P>(request: Req, context: CallContext<P>,
                                              authenticate: string -> Option<P>,
                                              continuation: (Req, CallContext<P>) -> Result<Resp>)
    requires EndsWithIgnoreCase(context.methodName, LoginSuffix)
    ensures UnaryServerHandler(request, context, authenticate, continuation) == continuation(request, context)
  {
  }

  /** A rejected call never reaches the continuation: the outcome is the same
      Unauthenticated failure whatever the continuation would have done. */
  lemma RejectionIgnoresContinuation<Req, Resp, P>(request: Req, context: CallContext<P>,
                                                   authenticate: string -> Option<P>,
                                                   k1: (Req, CallContext<P>) -> Result<Resp>,
                                                   k2: (Req, CallContext<P>) -> Result<Resp>)
    requires Decide(context.methodName, context.headers, authenticate).RejectHeader? ||
             Decide(context.methodName, context.headers, authenticate).RejectToken?
    ensures UnaryServerHandler(request, context, authenticate, k1) ==
            UnaryServerHandler(request, context, authenticate, k2)
    ensures UnaryServerHandler(request, context, authenticate, k1) ==
            if Decide(context.methodName, context.headers, authenticate).RejectHeader?
            then Fail(MissingOrInvalidHeader) else Fail(InvalidOrExpiredToken)
  {
  }

  /** An admitted call gets exactly the continuation's result, computed on the
      same request with the validated header and principal bound. */
  lemma AdmissionForwardsResult<Req, Resp, P>(request: Req, context: CallContext<P>,
                                              authenticate: string -> Option<P>,
                                              continuation: (Req, CallContext<P>) -> Result<Resp>)
    requires Decide(context.methodName, context.headers, authenticate).Admit?
    ensures var d := Decide(context.methodName, context.headers, authenticate);
            UnaryServerHandler(request, context, authenticate, continuation) ==
            continuation(request, context.(authorization := Some(d.authorization), user := Some(d.principal)))
  {
  }

  /** Gate soundness: whenever a non-exempt call's outcome depends on the
      continuation, its first Authorization value starts with "Bearer " and
      passed validation. */
  lemma GateSoundness<Req, Resp, P>(request: Req, context: CallContext<P>,
                                    authenticate: string -> Option<P>,
                                    k1: (Req, CallContext<P>) -> Result<Resp>,
                                    k2: (Req, CallContext<P>) -> Result<Resp>)
    requires !EndsWithIgnoreCase(context.methodName, LoginSuffix)
    requires UnaryServerHandler(request, context, authenticate, k1) !=
             UnaryServerHandler(request, context, authenticate, k2)
    ensures exists i :: FirstAuthorizationAt(context.headers, i) &&
                        StartsWith(context.headers[i].value, BearerPrefix) &&
                        authenticate(context.headers[i].value).Some?
  {
    var d := Decide(context.methodName, context.headers, authenticate);
    DecisionCases(context.methodName, context.headers, authenticate);
    if !d.Admit? {
      RejectionIgnoresContinuation(request, context, authenticate, k1, k2);
    }
  }
}
