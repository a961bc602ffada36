/** The response helpers of `src/lib/api-response.ts`: success and error
    bodies with their default statuses, the translation of Prisma error codes
    into HTTP answers, and the rate-limit headers.

    A response is a status, a JSON body and a header map. The success
    payload is kept as its JSON text. `Date.now()` is the parameter `now`. */
module ApiResponse {
  import opened Wrappers
  import opened Text

  /** The `code` strings of the error bodies. */
  datatype ErrorCode =
    | DUPLICATE_ENTRY | NOT_FOUND | DB_TIMEOUT | TRANSACTION_CONFLICT | DB_UNREACHABLE
    | DB_ERROR | RATE_LIMIT_EXCEEDED

  /** The JSON bodies the helpers build. A success body's `message` is
      `note` here. */
  datatype Body =
    | SuccessBody(data: Option<string>, note: Option<string>)
    | ErrorBody(message: string, code: Option<ErrorCode>, field: Option<string>)
    | RateLimitBody(message: string, code: Option<ErrorCode>, resetAt: int)

  /** `NextResponse.json(body, { status })` before any header is set. */
  datatype Reply = Reply(status: int, body: Body)

  /** `successResponse(data, message, status = 200)`. */
  function SuccessResponse(data: Option<string> := None, message: Option<string> := None,
                           status: int := 200): (r: Reply)
    ensures r.status == status && r.body == SuccessBody(data, message)
  {
    Reply(status, SuccessBody(data, message))
  }

  /** `errorResponse(message, status = 500, code, field)`. */
  function ErrorResponse(message: string, status: int := 500, code: Option<ErrorCode> := None,
                         field: Option<string> := None): (r: Reply)
    ensures r.status == status && r.body == ErrorBody(message, code, field)
  {
    Reply(status, ErrorBody(message, code, field))
  }

  /** Without a status, a success answers 200 and an error 500. */
  lemma DefaultStatuses(data: Option<string>, message: Option<string>, text: string)
    ensures SuccessResponse(data, message).status == 200
    ensures SuccessResponse().body == SuccessBody(None, None)
    ensures ErrorResponse(text).status == 500
    ensures ErrorResponse(text).body == ErrorBody(text, None, None)
  {
  }

  // ---------------------------------------------------------------------
  // handlePrismaError
  // ---------------------------------------------------------------------

  /** `error.meta?.target`: absent, an array of column names, or (as some
      databases report it) the name of the violated index as one string. */
  datatype Target = NoTarget | TargetList(names: seq<string>) | TargetText(name: string)

  /** The parts of a Prisma error the handler reads. */
  datatype PrismaError = PrismaError(code: Option<string>, target: Target)

  /** `error.meta?.target?.[0] || 'field'`: the first column name, or the
      first character when the target is one string; "field" when that is
      missing or empty. */
  function DuplicateField(t: Target): (f: string)
    ensures f != ""
    ensures t.TargetList? && t.names != [] && t.names[0] != "" ==> f == t.names[0]
    ensures t.TargetText? && t.name != "" ==> f == [t.name[0]]
    ensures f == "field" <==> match t
      case NoTarget => true
      case TargetList(names) => names == [] || names[0] == "" || names[0] == "field"
      case TargetText(name) => name == ""
  {
    match t
    case NoTarget => "field"
    case TargetList(names) => if names == [] || names[0] == "" then "field" else names[0]
    case TargetText(name) => if name == "" then "field" else [name[0]]
  }

  const DuplicateSuffix: string := " sudah digunakan"
  /** The fixed messages of the handler. */
  const NotFoundMessage: string := "Data tidak ditemukan"
  const ConnectionTimeoutMessage: string := "Database connection timeout. Silakan coba lagi."
  const ConflictMessage: string := "Konflik transaksi. Silakan coba lagi."
  const UnreachableMessage: string := "Tidak dapat terhubung ke database. Silakan coba lagi."
  const ServerTimeoutMessage: string := "Database server timeout. Silakan coba lagi."
  const GenericDbMessage: string := "Terjadi kesalahan pada database. Silakan coba lagi."

  /** Lines 64-125: one answer per known code, a generic one otherwise. */
  function HandlePrismaError(e: PrismaError): Reply {
    if e.code == Some("P2002") then
      var field := DuplicateField(e.target);
      ErrorResponse(field + DuplicateSuffix, 409, Some(DUPLICATE_ENTRY), Some(field))
    else if e.code == Some("P2025") then
      ErrorResponse(NotFoundMessage, 404, Some(NOT_FOUND))
    else if e.code == Some("P2024") then
      ErrorResponse(ConnectionTimeoutMessage, 503, Some(DB_TIMEOUT))
    else if e.code == Some("P2034") then
      ErrorResponse(ConflictMessage, 409, Some(TRANSACTION_CONFLICT))
    else if e.code == Some("P1001") then
      ErrorResponse(UnreachableMessage, 503, Some(DB_UNREACHABLE))
    else if e.code == Some("P1002") then
      ErrorResponse(ServerTimeoutMessage, 503, Some(DB_TIMEOUT))
    else
      ErrorResponse(GenericDbMessage, 500, Some(DB_ERROR))
  }

  /** The known codes. */
  const KnownCodes: set<string> := {"P2002", "P2025", "P2024", "P2034", "P1001", "P1002"}

  /** The status and the code every Prisma error gets: every error gets an
      error body, and only the six known codes escape the generic 500. */
  lemma PrismaErrorTable(e: PrismaError)
    ensures HandlePrismaError(e).body.ErrorBody?
    ensures var r := HandlePrismaError(e);
      && (r.status == 409 <==> e.code == Some("P2002") || e.code == Some("P2034"))
      && (r.status == 404 <==> e.code == Some("P2025"))
      && (r.status == 503 <==> e.code == Some("P2024") || e.code == Some("P1001") || e.code == Some("P1002"))
      && (r.status == 500 <==> e.code.None? || e.code.value !in KnownCodes)
    ensures var c := HandlePrismaError(e).body.code;
      && (c == Some(DUPLICATE_ENTRY) <==> e.code == Some("P2002"))
      && (c == Some(NOT_FOUND) <==> e.code == Some("P2025"))
      && (c == Some(TRANSACTION_CONFLICT) <==> e.code == Some("P2034"))
      && (c == Some(DB_TIMEOUT) <==> e.code == Some("P2024") || e.code == Some("P1002"))
      && (c == Some(DB_UNREACHABLE) <==> e.code == Some("P1001"))
      && (c == Some(DB_ERROR) <==> e.code.None? || e.code.value !in KnownCodes)
  {
    CodesDiffer();
  }

  /** The six known codes are six different strings. */
  lemma CodesDiffer()
    ensures |{"P2002", "P2025", "P2024", "P2034", "P1001", "P1002"}| == 6
  {
    assert "P2002"[3] == '0' && "P2025"[3] == '2' && "P2024"[3] == '2';
    assert "P2034"[3] == '3' && "P1001"[3] == '0' && "P1002"[3] == '0';
    assert "P2002"[1] == '2' && "P1001"[1] == '1' && "P1002"[1] == '1';
    assert "P2025"[4] == '5' && "P2024"[4] == '4' && "P1001"[4] == '1' && "P1002"[4] == '2';
  }

  /** A duplicate entry names the field in the body and in the message,
      which reads "<field> sudah digunakan". */
  lemma DuplicateEntryMessage(e: PrismaError)
    requires e.code == Some("P2002")
    ensures var b := HandlePrismaError(e).body;
      && b.field == Some(DuplicateField(e.target))
      && b.message[..|b.field.value|] == b.field.value
      && b.message[|b.field.value|..] == " sudah digunakan"
  {
    var f := DuplicateField(e.target);
    assert (f + DuplicateSuffix)[..|f|] == f;
    assert (f + DuplicateSuffix)[|f|..] == DuplicateSuffix;
  }

  // ---------------------------------------------------------------------
  // Rate-limit headers
  // ---------------------------------------------------------------------

  /** `Math.ceil(n / d)` for a positive divisor. */
  function CeilDiv(n: int, d: int): (q: int)
    requires d > 0
    ensures d * (q - 1) < n <= d * q
  {
    var q := (n + d - 1) / d;
    assert d * q <= n + d - 1 < d * q + d;
    q
  }

  /** The ceiling is the only integer with that property. */
  lemma CeilDivUnique(n: int, d: int, q: int)
    requires d > 0 && d * (q - 1) < n <= d * q
    ensures q == CeilDiv(n, d)
  {
    var c := CeilDiv(n, d);
    if q < c {
      MulMonotone(d, q, c - 1);
    } else if q > c {
      MulMonotone(d, c, q - 1);
    }
  }

  lemma MulMonotone(d: int, a: int, b: int)
    requires d > 0 && a <= b
    ensures d * a <= d * b
  {
    assert d * b - d * a == d * (b - a);
  }

  const ContentType: string := "content-type"
  const JsonType: string := "application/json"

  class Response {
    var status: int
    var body: Body
    var headers: map<string, string>

    /** `NextResponse.json(body, { status })`: the only header is the JSON
        content type. */
    constructor Json(r: Reply)
      ensures status == r.status && body == r.body && headers == map[ContentType := JsonType]
    {
      status := r.status;
      body := r.body;
      headers := map[ContentType := JsonType];
    }

    /** `response.headers.set(name, value)`. */
    method SetHeader(name: string, value: string)
      modifies this
      ensures headers == old(headers)[name := value]
      ensures status == old(status) && body == old(body)
    {
      headers := headers[name := value];
    }
  }

  const RateLimitMessage: string := "Terlalu banyak request. Silakan coba lagi nanti."

  /** The seconds a client is told to wait: `Math.ceil((resetAt - now) / 1000)`. */
  function RetryAfter(resetAt: int, now: int): int {
    CeilDiv(resetAt - now, 1000)
  }

  /** `rateLimitResponse(resetAt)` at time `now`: a 429 JSON answer that
      also carries Retry-After. */
  method RateLimitResponse(resetAt: int, now: int) returns (response: Response)
    ensures fresh(response)
    ensures response.status == 429
    ensures response.body == RateLimitBody(RateLimitMessage, Some(RATE_LIMIT_EXCEEDED), resetAt)
    ensures response.headers ==
              map[ContentType := JsonType, "Retry-After" := IntToString(RetryAfter(resetAt, now))]
  {
    response := new Response.Json(Reply(429, RateLimitBody(RateLimitMessage, Some(RATE_LIMIT_EXCEEDED), resetAt)));
    response.SetHeader("Retry-After", IntToString(CeilDiv(resetAt - now, 1000)));
  }

  /** Waiting the advertised whole seconds always reaches the reset time, and
      never by a full second more than needed; a reset still ahead gives a
      wait of at least one second. */
  lemma RetryAfterCovers(resetAt: int, now: int)
    ensures now + 1000 * RetryAfter(resetAt, now) >= resetAt
    ensures now + 1000 * (RetryAfter(resetAt, now) - 1) < resetAt
    ensures resetAt > now ==> RetryAfter(resetAt, now) >= 1
  {
    var q := RetryAfter(resetAt, now);
    if resetAt > now && q < 1 {
      MulMonotone(1000, q, 0);
    }
  }

  /** `addRateLimitHeaders(response, limit, remaining, resetAt)`: sets the
      three headers, keeps the rest of the response, and returns the same
      object. */
  method AddRateLimitHeaders(response: Response, limit: int, remaining: int, resetAt: int)
    returns (r: Response)
    modifies response
    ensures r == response
    ensures response.headers == old(response.headers)["X-RateLimit-Limit" := IntToString(limit)]
              ["X-RateLimit-Remaining" := IntToString(remaining)]
              ["X-RateLimit-Reset" := IntToString(CeilDiv(resetAt, 1000))]
    ensures response.status == old(response.status) && response.body == old(response.body)
  {
    response.SetHeader("X-RateLimit-Limit", IntToString(limit));
    response.SetHeader("X-RateLimit-Remaining", IntToString(remaining));
    response.SetHeader("X-RateLimit-Reset", IntToString(CeilDiv(resetAt, 1000)));
    return response;
  }

  /** The reset header is the reset time rounded up to whole seconds: not
      before the reset, and less than a second after it. */
  lemma ResetHeaderSeconds(resetAt: int)
    ensures 1000 * CeilDiv(resetAt, 1000) >= resetAt
    ensures 1000 * CeilDiv(resetAt, 1000) - resetAt < 1000
  {
  }
}
