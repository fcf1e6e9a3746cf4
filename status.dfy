/**
 * RPC status codes (`proto/Status.kt`): the gRPC-style `Codes`, whether a
 * failed call may be retried, and the mappings from an HTTP status and from
 * a WebSocket close code to a `Status`.
 */
module RpcStatus {
  import opened Wire

  /** `Codes`, in declaration order.  The first seventeen are those of
      google.rpc.Code; `ClientTimeout` is this library's own. */
  datatype Codes =
    | Ok | Cancelled | Unknown | InvalidArgument | DeadlineExceeded | NotFound
    | AlreadyExists | PermissionDenied | ResourceExhausted | FailedPrecondition
    | Aborted | OutOfRange | Unimplemented | Internal | Unavailable | DataLoss
    | Unauthenticated | ClientTimeout
  {
    /** `value`, the number the code travels as. */
    function Value(): int
    {
      match this
      case Ok => 0
      case Cancelled => 1
      case Unknown => 2
      case InvalidArgument => 3
      case DeadlineExceeded => 4
      case NotFound => 5
      case AlreadyExists => 6
      case PermissionDenied => 7
      case ResourceExhausted => 8
      case FailedPrecondition => 9
      case Aborted => 10
      case OutOfRange => 11
      case Unimplemented => 12
      case Internal => 13
      case Unavailable => 14
      case DataLoss => 15
      case Unauthenticated => 16
      case ClientTimeout => 100
    }

    /** `retriable()`: the codes after which the same call may succeed. */
    predicate Retriable()
    {
      match this
      case Unknown => true
      case ClientTimeout => true
      case DeadlineExceeded => true
      case ResourceExhausted => true
      case Aborted => true
      case Internal => true
      case Unavailable => true
      case _ => false
    }
  }

  /** `Codes.values()`. */
  const ALL_CODES: seq<Codes> := [
    Ok, Cancelled, Unknown, InvalidArgument, DeadlineExceeded, NotFound,
    AlreadyExists, PermissionDenied, ResourceExhausted, FailedPrecondition,
    Aborted, OutOfRange, Unimplemented, Internal, Unavailable, DataLoss,
    Unauthenticated, ClientTimeout]

  datatype Status = Status(code: Codes, message: string)

  /** Every code is listed once, and no two codes share a value. */
  lemma AllCodesListed(c: Codes, d: Codes)
    ensures c in ALL_CODES
    ensures c.Value() == d.Value() ==> c == d
    ensures 0 <= c.Value() < 1000
  {
  }

  /** Exactly seven codes are retriable. */
  lemma RetriableCodes(c: Codes)
    ensures c.Retriable() <==> c in {Unknown, ClientTimeout, DeadlineExceeded, ResourceExhausted, Aborted, Internal, Unavailable}
  {
  }

  // ---------------------------------------------------------------------------
  // Text helpers: `orEmpty`, `lowercase`, `contains`, `"$httpCode"`
  // ---------------------------------------------------------------------------

  /** `message.orEmpty()` and `message ?: ""`. */
  function OrEmpty(message: Option<string>): string
  {
    match message
    case Some(m) => m
    case None => ""
  }

  /** `lowercase()` on one character, for ASCII letters. */
  function LowerChar(c: char): (r: char)
    ensures 'A' <= c <= 'Z' ==> r as int == c as int + 32
    ensures !('A' <= c <= 'Z') ==> r == c
  {
    if 'A' <= c <= 'Z' then (c as int + 32) as char else c
  }

  /** `lowercase()`. */
  function Lower(s: string): (r: string)
    ensures |r| == |s| && forall i :: 0 <= i < |s| ==> r[i] == LowerChar(s[i])
  {
    seq(|s|, i requires 0 <= i < |s| => LowerChar(s[i]))
  }

  /** Lowering twice is lowering once. */
  lemma LowerIdempotent(s: string)
    ensures Lower(Lower(s)) == Lower(s)
  {
  }

  predicate OccursAt(s: string, pattern: string, i: int)
  {
    0 <= i && i + |pattern| <= |s| && s[i..i + |pattern|] == pattern
  }

  /** `s.contains(pattern)`. */
  predicate Contains(s: string, pattern: string)
  {
    exists i :: 0 <= i <= |s| - |pattern| && OccursAt(s, pattern, i)
  }

  /** `message?.lowercase()?.contains(word) == true`: a null message
      mentions nothing. */
  predicate Mentions(message: Option<string>, word: string)
  {
    message.Some? && Contains(Lower(message.value), word)
  }

  function DigitChar(d: nat): (c: char)
    requires d < 10
    ensures '0' <= c <= '9'
  {
    ('0' as int + d) as char
  }

  /** The decimal digits of `n`, most significant first, with no leading
      zero. */
  function Digits(n: nat): (r: string)
    ensures 0 < |r| && forall i :: 0 <= i < |r| ==> '0' <= r[i] <= '9'
    ensures |r| > 1 ==> r[0] != '0'
    decreases n
  {
    if n < 10 then [DigitChar(n)] else Digits(n / 10) + [DigitChar(n % 10)]
  }

  /** Kotlin's `Int.toString()`: a minus sign before the digits of a negative
      number. */
  function DecimalString(n: int): (r: string)
    ensures forall i :: 0 <= i < |r| ==> r[i] == '-' || '0' <= r[i] <= '9'
  {
    if n < 0 then "-" + Digits(-n) else Digits(n)
  }

  predicate AllDigits(s: string)
  {
    forall i :: 0 <= i < |s| ==> '0' <= s[i] <= '9'
  }

  /** The number a string of decimal digits spells. */
  function ParseDigits(s: string): nat
    requires AllDigits(s)
  {
    if |s| == 0 then 0 else ParseDigits(s[..|s| - 1]) * 10 + (s[|s| - 1] as int - '0' as int)
  }

  predicate IsDecimal(s: string)
  {
    AllDigits(s) || (0 < |s| && s[0] == '-' && AllDigits(s[1..]))
  }

  /** The number a decimal string spells, reading a leading minus sign. */
  function ParseDecimal(s: string): int
    requires IsDecimal(s)
  {
    if AllDigits(s) then ParseDigits(s) else -(ParseDigits(s[1..]) as int)
  }

  lemma {:induction false} DigitsRoundTrip(n: nat)
    ensures ParseDigits(Digits(n)) == n
    decreases n
  {
    if n >= 10 {
      var s := Digits(n);
      assert s[..|s| - 1] == Digits(n / 10);
      DigitsRoundTrip(n / 10);
    }
  }

  /** The decimal text of a number reads back as that number. */
  lemma DecimalRoundTrip(n: int)
    ensures IsDecimal(DecimalString(n)) && ParseDecimal(DecimalString(n)) == n
  {
    if n < 0 {
      var s := DecimalString(n);
      assert s[1..] == Digits(-n);
      assert !AllDigits(s);
      DigitsRoundTrip(-n);
    } else {
      DigitsRoundTrip(n);
    }
  }

  /** The index of the first space in `s`, or `|s|` when there is none. */
  function FirstSpace(s: string): (k: nat)
    ensures k <= |s|
    ensures forall i :: 0 <= i < k ==> s[i] != ' '
    ensures k < |s| ==> s[k] == ' '
  {
    if |s| == 0 || s[0] == ' ' then 0 else 1 + FirstSpace(s[1..])
  }

  // ---------------------------------------------------------------------------
  // `fromHTTPCode`
  // ---------------------------------------------------------------------------

  /** The code `fromHTTPCode` chooses.  Three statuses are refined by words in
      the message, matched without regard to case; a null message takes the
      last choice. */
  function HttpStatusCode(httpCode: i32, message: Option<string>): Codes
  {
    if httpCode == 200 then Ok
    else if httpCode == 400 then
      if Mentions(message, "failedprecondition") then FailedPrecondition
      else if Mentions(message, "outofrange") then OutOfRange
      else InvalidArgument
    else if httpCode == 401 then Unauthenticated
    else if httpCode == 403 then PermissionDenied
    else if httpCode == 404 then NotFound
    else if httpCode == 408 then ClientTimeout
    else if httpCode == 409 then
      if Mentions(message, "alreadyexists") then AlreadyExists else Aborted
    else if httpCode == 429 then ResourceExhausted
    else if httpCode == 499 then Cancelled
    else if httpCode == 500 then
      if Mentions(message, "internal") then Internal
      else if Mentions(message, "dataloss") then DataLoss
      else Unknown
    else if httpCode == 501 then Unimplemented
    else if httpCode == 503 then Unavailable
    else if httpCode == 504 then DeadlineExceeded
    else Unknown
  }

  /** `Status.fromHTTPCode`. */
  function FromHTTPCode(httpCode: i32, message: Option<string>): (s: Status)
    ensures s.code == HttpStatusCode(httpCode, message)
    ensures s.message == DecimalString(httpCode) + " - " + OrEmpty(message)
  {
    Status(HttpStatusCode(httpCode, message), DecimalString(httpCode) + " - " + OrEmpty(message))
  }

  /** The HTTP status google.rpc.Code gives for each code, and 408 for
      `ClientTimeout`. */
  function CanonicalHttp(c: Codes): i32
  {
    match c
    case Ok => 200
    case Cancelled => 499
    case Unknown => 500
    case InvalidArgument => 400
    case DeadlineExceeded => 504
    case NotFound => 404
    case AlreadyExists => 409
    case PermissionDenied => 403
    case ResourceExhausted => 429
    case FailedPrecondition => 400
    case Aborted => 409
    case OutOfRange => 400
    case Unimplemented => 501
    case Internal => 500
    case Unavailable => 503
    case DataLoss => 500
    case Unauthenticated => 401
    case ClientTimeout => 408
  }

  /** The statuses with a fixed code, and the defaults of the three refined
      ones when the message is null. */
  lemma HttpFixedCodes(message: Option<string>)
    ensures HttpStatusCode(200, message) == Ok
    ensures HttpStatusCode(401, message) == Unauthenticated
    ensures HttpStatusCode(403, message) == PermissionDenied
    ensures HttpStatusCode(404, message) == NotFound
    ensures HttpStatusCode(408, message) == ClientTimeout
    ensures HttpStatusCode(429, message) == ResourceExhausted
    ensures HttpStatusCode(499, message) == Cancelled
    ensures HttpStatusCode(501, message) == Unimplemented
    ensures HttpStatusCode(503, message) == Unavailable
    ensures HttpStatusCode(504, message) == DeadlineExceeded
    ensures HttpStatusCode(400, None) == InvalidArgument
    ensures HttpStatusCode(409, None) == Aborted
    ensures HttpStatusCode(500, None) == Unknown
  {
  }

  /** The mapping agrees with google.rpc.Code: a status maps to `Unknown` or
      to a code whose canonical HTTP status it is; every status outside the
      sixteen it lists maps to `Unknown`. */
  lemma HttpAgreesWithCanonical(httpCode: i32, message: Option<string>)
    ensures HttpStatusCode(httpCode, message) == Unknown || CanonicalHttp(HttpStatusCode(httpCode, message)) == httpCode
    ensures httpCode !in {200, 400, 401, 403, 404, 408, 409, 429, 499, 500, 501, 503, 504} ==> HttpStatusCode(httpCode, message) == Unknown
  {
  }

  /** A message that names the code, in lower case without underscores, or
      none for the defaults. */
  function Hint(c: Codes): Option<string>
  {
    match c
    case FailedPrecondition => Some("failedprecondition")
    case OutOfRange => Some("outofrange")
    case AlreadyExists => Some("alreadyexists")
    case Internal => Some("internal")
    case DataLoss => Some("dataloss")
    case _ => None
  }

  lemma MentionsWhole(word: string)
    requires forall i :: 0 <= i < |word| ==> 'a' <= word[i] <= 'z'
    ensures Mentions(Some(word), word)
  {
    assert Lower(word) == word;
    assert OccursAt(Lower(word), word, 0);
  }

  lemma MentionsNot(s: string, word: string)
    requires |s| < |word| || (0 < |s| == |word| && Lower(s)[0] != word[0])
    ensures !Mentions(Some(s), word)
  {
    forall i | 0 <= i <= |Lower(s)| - |word|
      ensures !OccursAt(Lower(s), word, i)
    {
      assert Lower(s)[i..i + |word|][0] == Lower(s)[0];
    }
  }

  /** The words each refining message mentions, and the earlier words it
      does not. */
  lemma HintsMention()
    ensures Mentions(Hint(FailedPrecondition), "failedprecondition")
    ensures !Mentions(Hint(OutOfRange), "failedprecondition") && Mentions(Hint(OutOfRange), "outofrange")
    ensures Mentions(Hint(AlreadyExists), "alreadyexists")
    ensures Mentions(Hint(Internal), "internal")
    ensures !Mentions(Hint(DataLoss), "internal") && Mentions(Hint(DataLoss), "dataloss")
  {
    MentionsWhole("failedprecondition");
    MentionsNot("outofrange", "failedprecondition");
    MentionsWhole("outofrange");
    MentionsWhole("alreadyexists");
    MentionsWhole("internal");
    MentionsNot("dataloss", "internal");
    MentionsWhole("dataloss");
  }

  /** Every code is reachable: the code's canonical HTTP status, with a
      message naming the code where the status is shared, gives the code. */
  lemma HttpReachesEveryCode(c: Codes)
    ensures HttpStatusCode(CanonicalHttp(c), Hint(c)) == c
  {
    if Hint(c).Some? {
      HintsMention();
    }
  }

  /** The word test ignores case: messages that agree once lowered give the
      same code. */
  lemma HttpIgnoresCase(httpCode: i32, m: string, m': string)
    requires Lower(m) == Lower(m')
    ensures HttpStatusCode(httpCode, Some(m)) == HttpStatusCode(httpCode, Some(m'))
    ensures HttpStatusCode(httpCode, Some(m)) == HttpStatusCode(httpCode, Some(Lower(m)))
  {
    LowerIdempotent(m);
  }

  /** The message of an HTTP status gives back both the status and the
      original message: the status up to the first space, then " - ", then
      the message. */
  lemma HttpMessageRecovers(httpCode: i32, message: Option<string>)
    ensures var text := FromHTTPCode(httpCode, message).message;
      var k := FirstSpace(text);
      k + 3 <= |text| && IsDecimal(text[..k]) && ParseDecimal(text[..k]) == httpCode &&
      text[k..k + 3] == " - " && text[k + 3..] == OrEmpty(message)
  {
    var d := DecimalString(httpCode);
    var text := d + " - " + OrEmpty(message);
    assert text[|d|] == ' ';
    assert FirstSpace(text) == |d|;
    assert text[..|d|] == d;
    DecimalRoundTrip(httpCode);
  }

  // ---------------------------------------------------------------------------
  // `fromWSCode`
  // ---------------------------------------------------------------------------

  /** `codes.firstOrNull { it.value == value }`. */
  function FirstWithValue(codes: seq<Codes>, value: int): (r: Option<Codes>)
    ensures r.Some? ==> r.value in codes && r.value.Value() == value
    ensures r.None? <==> forall c :: c in codes ==> c.Value() != value
  {
    if |codes| == 0 then None
    else if codes[0].Value() == value then Some(codes[0])
    else FirstWithValue(codes[1..], value)
  }

  /** The code `fromWSCode` chooses: normal closure is `Ok`, going away is
      `Unavailable`, and an application close code 4000 + v is the code whose
      value is v. */
  function WsStatusCode(wsCode: i32): Codes
  {
    if wsCode == 1000 then Ok
    else if wsCode == 1001 then Unavailable
    else if 4000 <= wsCode < 5000 then
      match FirstWithValue(ALL_CODES, wsCode - 4000)
      case Some(c) => c
      case None => Unknown
    else Unknown
  }

  /** `Status.fromWSCode`: the message passes through, null becoming empty. */
  function FromWSCode(wsCode: i32, message: Option<string>): (s: Status)
    ensures s.code == WsStatusCode(wsCode)
    ensures s.message == OrEmpty(message)
  {
    Status(WsStatusCode(wsCode), OrEmpty(message))
  }

  /** A server that closes with 4000 plus a code's value hands the client that
      code. */
  lemma WsRoundTrip(c: Codes, message: Option<string>)
    ensures FromWSCode(4000 + c.Value() as i32, message) == Status(c, OrEmpty(message))
  {
    AllCodesListed(c, c);
    var r := FirstWithValue(ALL_CODES, c.Value());
    AllCodesListed(r.value, c);
  }

  /** An application close code that names no code, and any close code outside
      1000, 1001 and 4000..4999, gives `Unknown`. */
  lemma WsUnknown(wsCode: i32)
    requires wsCode != 1000 && wsCode != 1001
    requires 4000 <= wsCode < 5000 ==> forall c: Codes :: c.Value() != wsCode - 4000
    ensures WsStatusCode(wsCode) == Unknown
  {
  }

  lemma WsExamples()
    ensures WsStatusCode(4100) == ClientTimeout
    ensures WsStatusCode(4017) == Unknown
    ensures WsStatusCode(1001) == Unavailable
  {
    WsRoundTrip(ClientTimeout, None);
    forall c: Codes
      ensures c.Value() != 17
    {
      AllCodesListed(c, c);
    }
  }
}
