/**
 * The runtime failure wrapper of spaceship/src/errors/mod.rs: a `Failure`
 * pairs an error with the status code of the response it becomes. It is
 * built with status 500, rebuilt by value with another status by
 * `.status(..)`, and turned into a plain-text response.
 */
module Errors {
  import opened Wrappers

  /** `axum::http::StatusCode`: a code from 100 to 999. */
  type StatusCode = c: int | 100 <= c <= 999 witness 500

  const INTERNAL_SERVER_ERROR: StatusCode := 500
  const UNAUTHORIZED: StatusCode := 401

  /** `anyhow::Error`, known by the text it displays. */
  datatype AnyError = AnyError(display: string)

  /** `Failure(anyhow::Error, StatusCode)` */
  datatype Failure = Failure(err: AnyError, status: StatusCode)

  /** `HandlerResult<T>` */
  type HandlerResult<T> = Result<T, Failure>

  /** `Failure::new`: the error, unchanged, with status 500. */
  function New(err: AnyError): (f: Failure)
    ensures f.err == err && f.status == INTERNAL_SERVER_ERROR
  {
    Failure(err, INTERNAL_SERVER_ERROR)
  }

  /**
   * `impl<E: Into<anyhow::Error>> From<E> for Failure`; `into` is the
   * conversion the bound provides. It builds the same value as `New`.
   */
  function FromError<E>(e: E, into: E -> AnyError): (f: Failure)
    ensures f == New(into(e))
  {
    Failure(into(e), INTERNAL_SERVER_ERROR)
  }

  /**
   * `LazyChangeStatus::status`: rebuilds the failure with a new status and
   * the same error. On `Ok` the source panics, hence the precondition.
   */
  function Status<T>(result: HandlerResult<T>, status: StatusCode): (r: HandlerResult<T>)
    requires result.Err?
    ensures r.Err? && r.error.err == result.error.err && r.error.status == status
  {
    Err(Failure(result.error.err, status))
  }

  /** A second `.status(..)` overrides the first; the error is still the original one. */
  lemma StatusLastWins<T>(result: HandlerResult<T>, first: StatusCode, second: StatusCode)
    requires result.Err?
    ensures Status(Status(result, first), second) == Status(result, second)
    ensures Status(Status(result, first), second) == Err(Failure(result.error.err, second))
  {
  }

  /** The three forms `failure!` accepts: a literal, an error expression, a format string and its arguments. */
  datatype FailureArgs =
    | Literal(text: string)
    | Expression(err: AnyError)
    | Format(fmt: string, args: seq<string>)

  /** A literal with no `{` or `}`: `format_args!` gives back its text unchanged. */
  predicate PlainLiteral(text: string) {
    forall i :: 0 <= i < |text| ==> text[i] != '{' && text[i] != '}'
  }

  /**
   * The `anyhow!` error each form builds. `format` is Rust's formatting of
   * a format string with its arguments, which is not modelled; a literal
   * goes through it too (escaped braces, captured names) unless it has no
   * braces at all, when its text is the message.
   */
  function Anyhow(a: FailureArgs, format: (string, seq<string>) -> string): (e: AnyError)
    ensures a.Literal? && PlainLiteral(a.text) ==> e.display == a.text
    ensures a.Expression? ==> e == a.err
  {
    match a
    case Literal(text) => if PlainLiteral(text) then AnyError(text) else AnyError(format(text, []))
    case Expression(err) => err
    case Format(fmt, args) => AnyError(format(fmt, args))
  }

  /** `failure!(..)`: `Err(Failure::new(anyhow!(..)))` in every form, so status 500. */
  function FailureMacro<T>(a: FailureArgs, format: (string, seq<string>) -> string): (r: HandlerResult<T>)
    ensures r.Err? && r.error.status == INTERNAL_SERVER_ERROR
    ensures r.Err? && r.error.err == Anyhow(a, format)
  {
    Err(New(Anyhow(a, format)))
  }

  /** `internal_error!(..)`: returns early with the value `failure!(..)` builds from the same arguments. */
  function InternalErrorMacro<T>(a: FailureArgs, format: (string, seq<string>) -> string): (r: HandlerResult<T>)
    ensures r == FailureMacro(a, format)
    ensures r.Err? && r.error.status == INTERNAL_SERVER_ERROR
  {
    FailureMacro(a, format)
  }

  /** `failure!("User not authenticated").status(StatusCode::UNAUTHORIZED)` fails with 401 and that message. */
  lemma FailureWithUnauthorized<T>(format: (string, seq<string>) -> string)
    ensures Status(FailureMacro<T>(Literal("User not authenticated"), format), UNAUTHORIZED)
         == Err(Failure(AnyError("User not authenticated"), 401))
  {
  }

  /** A plain-text response: `(StatusCode, String)` turned into a response. */
  datatype TextResponse = TextResponse(status: StatusCode, body: string)

  const BODY_PREFIX: string := "Something went wrong: "

  /** `IntoResponse for Failure`: the stored status, and the prefix followed by the error text. */
  function IntoResponse(f: Failure): (r: TextResponse)
    ensures r.status == f.status
    ensures |r.body| == |BODY_PREFIX| + |f.err.display|
    ensures r.body[..|BODY_PREFIX|] == BODY_PREFIX && r.body[|BODY_PREFIX|..] == f.err.display
  {
    TextResponse(f.status, BODY_PREFIX + f.err.display)
  }

  /** The error text a response body carries, when it has the failure prefix. */
  function ErrorTextOf(body: string): Option<string> {
    if |body| >= |BODY_PREFIX| && body[..|BODY_PREFIX|] == BODY_PREFIX then Some(body[|BODY_PREFIX|..]) else None
  }

  /** The response of a failure carries its error text back unchanged. */
  lemma ResponseCarriesError(f: Failure)
    ensures ErrorTextOf(IntoResponse(f).body) == Some(f.err.display)
  {
  }
}
