/**
 * The submissions endpoint: the checks a request passes before the table is
 * touched, in their fixed order, and then the locked allocate-and-insert.
 *
 * Environment variables and the request are values; the answer of the
 * CAPTCHA provider's verification call is an input (`Verdict`).
 */
module Handler {
  import opened Wrappers
  import Email
  import Allocator
  import opened Submissions

  /** The JSON fields the endpoint reads from the request body. */
  datatype Body = Body(
    name: Option<string>,
    telephone: Option<string>,
    gender: Option<string>,
    more: Option<string>,
    email: Option<string>,
    captchaToken: Option<string>)

  datatype Request = Request(httpMethod: string, body: Option<Body>)

  /** The environment variables the endpoint consults. */
  datatype Env = Env(
    publicProvider: Option<string>,
    twoFaProvider: Option<string>,
    recaptchaSecret: Option<string>,
    turnstileSecret: Option<string>)

  /** What the provider's verification call gave: `success` set, not set, or the call threw. */
  datatype Verdict = Verified | NotVerified | Unreachable

  /** Why a request is refused; each reason has its own error message. */
  datatype Reason =
    | MethodNotAllowed
    | NameRequired
    | InvalidEmail
    | ProviderNotConfigured
    | CaptchaTokenRequired
    | SecretNotSet
    | UnknownProvider
    | CaptchaFailed
    | DatabaseError

  /** The outcome of the checks: refused, or the row to insert. */
  datatype Decision = Reject(reason: Reason) | Admit(row: Submission)

  /** A success body is `{ok: true}` and carries no id. */
  datatype ResponseBody = Ok | Error(reason: Reason)

  datatype Response = Response(status: int, body: ResponseBody)

  /** JavaScript truthiness of an optional string field. */
  predicate Truthy(v: Option<string>) {
    v.Some? && v.value != ""
  }

  /** `v || null`: a falsy field is stored as SQL NULL. */
  function OrNull(v: Option<string>): (r: Option<string>)
    ensures r.Some? <==> Truthy(v)
    ensures r.Some? ==> r == v
  {
    if Truthy(v) then v else None
  }

  /** `req.body || {}`: a missing body reads as one with every field absent. */
  function Fields(req: Request): (b: Body)
    ensures req.body.Some? ==> b == req.body.value
    ensures req.body.None? ==>
      && !Truthy(b.name) && !Truthy(b.telephone) && !Truthy(b.gender)
      && !Truthy(b.more) && !Truthy(b.email) && !Truthy(b.captchaToken)
  {
    if req.body.Some? then req.body.value else Body(None, None, None, None, None, None)
  }

  /** `NEXT_PUBLIC_2FA_PROVIDER || TWO_FA_PROVIDER`. */
  function Provider(env: Env): (provider: Option<string>)
    ensures Truthy(provider) <==> Truthy(env.publicProvider) || Truthy(env.twoFaProvider)
    ensures Truthy(env.publicProvider) ==> provider == env.publicProvider
    ensures !Truthy(env.publicProvider) ==> provider == env.twoFaProvider
  {
    if Truthy(env.publicProvider) then env.publicProvider else env.twoFaProvider
  }

  /** The secret the configured provider needs, if the provider is a known one. */
  function Secret(env: Env): (secret: Option<string>)
    ensures secret.Some? ==> IsKnownProvider(Provider(env))
    ensures Provider(env) == Some("recaptcha") ==> secret == env.recaptchaSecret
    ensures Provider(env) == Some("turnstile") ==> secret == env.turnstileSecret
  {
    var provider := Provider(env);
    if provider == Some("recaptcha") then env.recaptchaSecret
    else if provider == Some("turnstile") then env.turnstileSecret
    else None
  }

  predicate IsKnownProvider(provider: Option<string>) {
    provider == Some("recaptcha") || provider == Some("turnstile")
  }

  /** The row the INSERT writes for an admitted body. */
  function RowData(b: Body): (row: Submission)
    requires Truthy(b.name)
    ensures row.name == b.name.value
    ensures row.telephone.Some? <==> Truthy(b.telephone)
    ensures row.gender.Some? <==> Truthy(b.gender)
    ensures row.email.Some? <==> Truthy(b.email)
    ensures row.more.Some? <==> Truthy(b.more)
    ensures Truthy(b.telephone) ==> row.telephone == b.telephone
    ensures Truthy(b.gender) ==> row.gender == b.gender
    ensures Truthy(b.email) ==> row.email == b.email
    ensures Truthy(b.more) ==> row.more == b.more
  {
    Submission(b.name.value, OrNull(b.telephone), OrNull(b.gender), OrNull(b.email), OrNull(b.more))
  }

  /** 405 for the method, 400 for bad input, 403 for a failed check, 500 otherwise. */
  function StatusOf(reason: Reason): (status: int)
    ensures status == 405 <==> reason == MethodNotAllowed
    ensures status == 400 <==> reason in {NameRequired, InvalidEmail, CaptchaTokenRequired}
    ensures status == 403 <==> reason == CaptchaFailed
    ensures status == 500 <==>
      reason in {ProviderNotConfigured, SecretNotSet, UnknownProvider, DatabaseError}
  {
    match reason
    case MethodNotAllowed => 405
    case NameRequired => 400
    case InvalidEmail => 400
    case ProviderNotConfigured => 500
    case CaptchaTokenRequired => 400
    case SecretNotSet => 500
    case UnknownProvider => 500
    case CaptchaFailed => 403
    case DatabaseError => 500
  }

  /**
   * The checks before the table is touched, in the handler's order: method,
   * name, e-mail, provider configured, token, provider known with its
   * secret, verification.
   */
  function Gate(req: Request, env: Env, verdict: Verdict): (d: Decision)
    ensures d.Admit? <==>
      var b := Fields(req);
      && req.httpMethod == "POST"
      && Truthy(b.name)
      && (Truthy(b.email) ==> Email.IsValidEmail(b.email.value))
      && Truthy(b.captchaToken)
      && IsKnownProvider(Provider(env))
      && Truthy(Secret(env))
      && verdict == Verified
    ensures d.Admit? ==> d.row == RowData(Fields(req))
  {
    var b := Fields(req);
    if req.httpMethod != "POST" then Reject(MethodNotAllowed)
    else if !Truthy(b.name) then Reject(NameRequired)
    else if Truthy(b.email) && !Email.IsValidEmail(b.email.value) then Reject(InvalidEmail)
    else if !Truthy(Provider(env)) then Reject(ProviderNotConfigured)
    else if !Truthy(b.captchaToken) then Reject(CaptchaTokenRequired)
    else if !IsKnownProvider(Provider(env)) then Reject(UnknownProvider)
    else if !Truthy(Secret(env)) then Reject(SecretNotSet)
    else if verdict == NotVerified then Reject(CaptchaFailed)
    else if verdict == Unreachable then Reject(DatabaseError)
    else Admit(RowData(b))
  }

  /** The request carries what the insert needs and every check passes. */
  ghost predicate Acceptable(req: Request, env: Env, verdict: Verdict) {
    var b := Fields(req);
    && req.httpMethod == "POST"
    && Truthy(b.name)
    && (Truthy(b.email) ==> Email.MatchesPattern(b.email.value))
    && Truthy(b.captchaToken)
    && IsKnownProvider(Provider(env))
    && Truthy(Secret(env))
    && verdict == Verified
  }

  /**
   * A request is admitted exactly when it is acceptable, and then the row
   * holds its name and its other fields with falsy ones as NULL.
   */
  lemma GateAdmitsAcceptable(req: Request, env: Env, verdict: Verdict)
    ensures Gate(req, env, verdict).Admit? <==> Acceptable(req, env, verdict)
    ensures Gate(req, env, verdict).Admit? ==>
      var b := Fields(req);
      var row := Gate(req, env, verdict).row;
      && row.name == b.name.value && row.telephone == OrNull(b.telephone)
      && row.gender == OrNull(b.gender) && row.email == OrNull(b.email)
      && row.more == OrNull(b.more)
  {
    var b := Fields(req);
    if Truthy(b.email) {
      Email.IsValidEmailMatchesPattern(b.email.value);
    }
  }

  /**
   * Precedence of the refusals: each reason is given exactly when its check
   * fails and every earlier one passed.
   */
  lemma GatePrecedence(req: Request, env: Env, verdict: Verdict)
    ensures var d, b := Gate(req, env, verdict), Fields(req);
      && (d == Reject(MethodNotAllowed) <==> req.httpMethod != "POST")
      && (d == Reject(NameRequired) <==> req.httpMethod == "POST" && !Truthy(b.name))
      && (d == Reject(InvalidEmail) <==>
            req.httpMethod == "POST" && Truthy(b.name) && Truthy(b.email) && !Email.MatchesPattern(b.email.value))
      && (d == Reject(ProviderNotConfigured) <==>
            req.httpMethod == "POST" && Truthy(b.name) && (Truthy(b.email) ==> Email.MatchesPattern(b.email.value))
            && !Truthy(Provider(env)))
      && (d == Reject(CaptchaTokenRequired) <==>
            req.httpMethod == "POST" && Truthy(b.name) && (Truthy(b.email) ==> Email.MatchesPattern(b.email.value))
            && Truthy(Provider(env)) && !Truthy(b.captchaToken))
      && (d == Reject(UnknownProvider) <==>
            req.httpMethod == "POST" && Truthy(b.name) && (Truthy(b.email) ==> Email.MatchesPattern(b.email.value))
            && Truthy(Provider(env)) && Truthy(b.captchaToken) && !IsKnownProvider(Provider(env)))
      && (d == Reject(SecretNotSet) <==>
            req.httpMethod == "POST" && Truthy(b.name) && (Truthy(b.email) ==> Email.MatchesPattern(b.email.value))
            && Truthy(b.captchaToken) && IsKnownProvider(Provider(env)) && !Truthy(Secret(env)))
      && (d == Reject(CaptchaFailed) <==> Acceptable(req, env, Verified) && verdict == NotVerified)
      && (d == Reject(DatabaseError) <==> Acceptable(req, env, Verified) && verdict == Unreachable)
  {
    var b := Fields(req);
    if Truthy(b.email) {
      Email.IsValidEmailMatchesPattern(b.email.value);
    }
  }

  /**
   * The whole endpoint on the `submissions` table. `setupFails` stands for a
   * failure of getting the pool, of `CREATE TABLE IF NOT EXISTS` or of taking
   * a client; `fault` for a failing statement inside the transaction.
   * A refused or failed request leaves the table as it was; a successful one
   * adds exactly the admitted row under the smallest free id and answers 200
   * without that id.
   */
  method Handle(table: SubmissionsTable, req: Request, env: Env, verdict: Verdict,
                setupFails: bool, fault: Option<Stage>) returns (resp: Response)
    requires table.Valid()
    modifies table
    ensures table.Valid()
    ensures old(table.IdsPositive()) ==> table.IdsPositive()
    ensures Gate(req, env, verdict).Reject? ==>
      var reason := Gate(req, env, verdict).reason;
      resp == Response(StatusOf(reason), Error(reason))
    ensures resp.status == 200 <==>
      && Gate(req, env, verdict).Admit? && !setupFails && fault == None
      && Allocator.LeastMissing(old(table.IdSet())) <= MaxInteger
    ensures resp.status == 200 ==>
      && resp.body == Ok
      && table.rows == old(table.rows) + [Row(Allocator.LeastMissing(old(table.IdSet())), Gate(req, env, verdict).row)]
    ensures resp.status != 200 ==> table.rows == old(table.rows)
    ensures Gate(req, env, verdict).Admit? && resp.status != 200 ==> resp == Response(500, Error(DatabaseError))
  {
    var decision := Gate(req, env, verdict);
    if decision.Reject? {
      return Response(StatusOf(decision.reason), Error(decision.reason));
    }
    if setupFails {
      return Response(500, Error(DatabaseError));
    }
    var outcome := table.AllocateAndInsert(decision.row, fault);
    if outcome.RolledBack? {
      // the error is rethrown and reported by the outer handler
      return Response(500, Error(DatabaseError));
    }
    return Response(200, Ok);
  }
}
