/** The access-control gate in front of the protected routes (server/authMiddleware.js).
    `verifyToken` reads the `authorization` header, verifies it, records the
    decoded id and role on the request and calls `next`; `verifyAdmin` runs
    `verifyToken` with a continuation that lets only the admin role through. */
module AuthMiddleware {
  import opened Tables
  import opened Http
  import opened Jwt
  import Database

  const NoToken := Reply(403, Message("No token provided"))
  const BadToken := Reply(401, Message("Unauthorized"))
  const NotAdmin := Reply(403, JsonText("You are not allowed to do that!"))

  /** The `next` callback handed to `verifyToken`: the route handler itself, or
      the admin check that `verifyAdmin` wraps around it. */
  datatype Next = Handler | AdminCheck

  /** The decision of the gate: a reply sent by the middleware, or the route
      handler run with the decoded claims. */
  datatype Decision = Reject(reply: Reply) | Admit(claims: Claims)

  /** JavaScript truthiness of the header: absent and empty both count as no token. */
  predicate Presented(authorization: Option<string>)
  {
    authorization.Some? && authorization.value != ""
  }

  /** What the middleware decides for a request, `adminOnly` selecting `verifyAdmin`. */
  function Gate(authorization: Option<string>, verify: Verifier, adminOnly: bool): (d: Decision)
    ensures d.Admit? <==>
      Presented(authorization) && authorization.value in verify &&
      (adminOnly ==> verify[authorization.value].role == Database.AdminRole)
    ensures d.Admit? ==> d.claims == verify[authorization.value]
    ensures d.Reject? ==> d.reply in {NoToken, BadToken, NotAdmin}
  {
    if !Presented(authorization) then Reject(NoToken)
    else if authorization.value !in verify then Reject(BadToken)
    else
      var decoded := verify[authorization.value];
      if adminOnly && decoded.role != Database.AdminRole then Reject(NotAdmin)
      else Admit(decoded)
  }

  /** One request passing through the middleware: its header, the fields the
      middleware sets on `req`, the replies sent on `res`, and how often the
      route handler was entered. */
  class Exchange {
    const authorization: Option<string>
    var userId: Option<int>
    var userRole: Option<string>
    var replies: seq<Reply>
    var handlerCalls: nat

    constructor (authorization: Option<string>)
      ensures this.authorization == authorization
      ensures userId == None && userRole == None && replies == [] && handlerCalls == 0
    {
      this.authorization := authorization;
      userId, userRole := None, None;
      replies, handlerCalls := [], 0;
    }
  }

  /** The body of the `next` callback. */
  method Continue(ex: Exchange, next: Next)
    modifies ex`replies, ex`handlerCalls
    ensures next == Handler || ex.userRole == Some(Database.AdminRole) ==>
      ex.handlerCalls == old(ex.handlerCalls) + 1 && ex.replies == old(ex.replies)
    ensures next == AdminCheck && ex.userRole != Some(Database.AdminRole) ==>
      ex.handlerCalls == old(ex.handlerCalls) && ex.replies == old(ex.replies) + [NotAdmin]
  {
    match next
    case Handler =>
      ex.handlerCalls := ex.handlerCalls + 1;
    case AdminCheck =>
      if ex.userRole == Some(Database.AdminRole) {
        ex.handlerCalls := ex.handlerCalls + 1;
      } else {
        ex.replies := ex.replies + [NotAdmin];
      }
  }

  /** `verifyToken(req, res, next)`: exactly one of "a reply is sent" and
      "`next` runs" happens, and the decoded claims are recorded exactly when
      the token verifies. */
  method VerifyToken(ex: Exchange, verify: Verifier, next: Next)
    modifies ex`userId, ex`userRole, ex`replies, ex`handlerCalls
    ensures Presented(ex.authorization) && ex.authorization.value in verify ==>
      var c := verify[ex.authorization.value];
      ex.userId == Some(c.id) && ex.userRole == Some(c.role)
    ensures !(Presented(ex.authorization) && ex.authorization.value in verify) ==>
      ex.userId == old(ex.userId) && ex.userRole == old(ex.userRole)
    ensures |ex.replies| + ex.handlerCalls == |old(ex.replies)| + old(ex.handlerCalls) + 1
    ensures |ex.replies| >= |old(ex.replies)| && ex.replies[..|old(ex.replies)|] == old(ex.replies)
    ensures match Gate(ex.authorization, verify, next == AdminCheck)
      case Reject(r) => ex.replies == old(ex.replies) + [r] && ex.handlerCalls == old(ex.handlerCalls)
      case Admit(_) => ex.replies == old(ex.replies) && ex.handlerCalls == old(ex.handlerCalls) + 1
  {
    var token := ex.authorization;
    if token.None? || token.value == "" {
      ex.replies := ex.replies + [NoToken];
      return;
    }
    if token.value !in verify {
      ex.replies := ex.replies + [BadToken];
      return;
    }
    var decoded := verify[token.value];
    ex.userId := Some(decoded.id);
    ex.userRole := Some(decoded.role);
    Continue(ex, next);
  }

  /** `verifyAdmin(req, res, next)`. */
  method VerifyAdmin(ex: Exchange, verify: Verifier)
    modifies ex`userId, ex`userRole, ex`replies, ex`handlerCalls
    ensures |ex.replies| + ex.handlerCalls == |old(ex.replies)| + old(ex.handlerCalls) + 1
    ensures match Gate(ex.authorization, verify, true)
      case Reject(r) => ex.replies == old(ex.replies) + [r] && ex.handlerCalls == old(ex.handlerCalls)
      case Admit(_) => ex.replies == old(ex.replies) && ex.handlerCalls == old(ex.handlerCalls) + 1
  {
    VerifyToken(ex, verify, AdminCheck);
  }

  /** A request without a token, or with an empty one, is refused with 403
      "No token provided" by either middleware. */
  lemma MissingTokenRefused(authorization: Option<string>, verify: Verifier, adminOnly: bool)
    requires !Presented(authorization)
    ensures Gate(authorization, verify, adminOnly) == Reject(Reply(403, Message("No token provided")))
  {
  }

  /** A token that fails verification is refused with 401 by either middleware. */
  lemma InvalidTokenRefused(token: string, verify: Verifier, adminOnly: bool)
    requires token != "" && token !in verify
    ensures Gate(Some(token), verify, adminOnly) == Reject(Reply(401, Message("Unauthorized")))
  {
  }

  /** `verifyAdmin` refuses what `verifyToken` refuses, with the same reply;
      of what `verifyToken` admits it admits the admin role, with the same
      claims, and refuses every other role with 403. */
  lemma AdminGateRefinesTokenGate(authorization: Option<string>, verify: Verifier)
    ensures Gate(authorization, verify, false).Reject? ==>
      Gate(authorization, verify, true) == Gate(authorization, verify, false)
    ensures Gate(authorization, verify, false).Admit? ==>
      Gate(authorization, verify, true) ==
        if Gate(authorization, verify, false).claims.role == Database.AdminRole
        then Gate(authorization, verify, false)
        else Reject(Reply(403, JsonText("You are not allowed to do that!")))
  {
  }
}
