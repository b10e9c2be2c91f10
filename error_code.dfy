/** The service's error catalogue: each error kind is reported to a caller as one fixed JSON
    reply text. */
module ErrorCode {

  /** The six error kinds the catalogue names, plus `NoError`, which stands for every other
      enumerator of the C++ enum (the header that declares the enum is not part of this model);
      all of those fall to the catalogue's default reply. */
  datatype SDKError =
    | UnknownError
    | InvalidParameters
    | MalformedJson
    | InvalidConfigurations
    | CollectorIsRunning
    | DevmodeDisable
    | NoError

  /** The three fields of a reply. */
  datatype Reply = Reply(returnValue: bool, errorCode: nat, errorText: string)

  /** The numeric code of each kind: the error kinds are numbered 1 to 6 in declaration order,
      and everything else is 0. */
  function Code(ec: SDKError): nat
  {
    match ec
    case UnknownError => 1
    case InvalidParameters => 2
    case MalformedJson => 3
    case InvalidConfigurations => 4
    case CollectorIsRunning => 5
    case DevmodeDisable => 6
    case NoError => 0
  }

  /** The human-readable text of each kind. */
  function Text(ec: SDKError): string
  {
    match ec
    case UnknownError => "Unknown error."
    case InvalidParameters => "Invalid parameters."
    case MalformedJson => "Malformed json."
    case InvalidConfigurations => "Invalid configurations."
    case CollectorIsRunning => "Collector is active (running)."
    case DevmodeDisable => "The developer mode must be activated in order to monitor performance."
    case NoError => "Success."
  }

  /** The reply each kind stands for: a failure with the kind's code and text, or, for every
      kind without an entry, a success with code 0. */
  function ReplyOf(ec: SDKError): (r: Reply)
    ensures r.errorCode < 10
    ensures r.returnValue <==> r.errorCode == 0
    ensures r.returnValue <==> ec == NoError
  {
    Reply(ec == NoError, Code(ec), Text(ec))
  }

  function BoolText(b: bool): string
  {
    if b then "true" else "false"
  }

  /** The decimal digit of a number below ten. */
  function Digit(n: nat): char
    requires n < 10
  {
    ('0' as int + n) as char
  }

  /** The compact JSON rendering of a reply whose code is a single digit:
      {"returnValue":<bool>,"errorCode":<digit>,"errorText":"<text>"}. */
  function Render(r: Reply): string
    requires r.errorCode < 10
  {
    "{\"returnValue\":" + BoolText(r.returnValue)
    + ",\"errorCode\":" + [Digit(r.errorCode)]
    + ",\"errorText\":\"" + r.errorText + "\"}"
  }

  /** getErrorMessage: the fixed reply text for an error kind. */
  function GetErrorMessage(ec: SDKError): string
  {
    Render(ReplyOf(ec))
  }

  /** Distinct kinds get distinct codes, so a caller can tell them apart by code alone. */
  lemma {:induction false} CodesDistinct(a: SDKError, b: SDKError)
    requires a != b
    ensures ReplyOf(a).errorCode != ReplyOf(b).errorCode
  {
  }

  /** Where the two distinguishing fields sit in a rendered reply. */
  lemma {:induction false} RenderFields(r: Reply)
    requires r.errorCode < 10
    ensures |Render(r)| > 15 + |BoolText(r.returnValue)| + 13
    ensures Render(r)[15] == BoolText(r.returnValue)[0]
    ensures Render(r)[15 + |BoolText(r.returnValue)| + 13] == Digit(r.errorCode)
  {
    var open, bt, mid := "{\"returnValue\":", BoolText(r.returnValue), ",\"errorCode\":";
    var digit := [Digit(r.errorCode)];
    var rest := ",\"errorText\":\"" + r.errorText + "\"}";
    var head := open + bt + mid + digit;
    assert Render(r) == head + rest;
    assert |open| == 15 && |mid| == 13;
    assert head[15] == bt[0];
    assert head[15 + |bt| + 13] == digit[0];
  }

  /** Replies that differ in their code render differently: the returnValue field tells
      success from failure, and the single-digit errorCode field tells the codes apart. */
  lemma {:induction false} RendersDistinct(ra: Reply, rb: Reply)
    requires ra.errorCode < 10 && rb.errorCode < 10
    requires ra.errorCode != rb.errorCode
    ensures Render(ra) != Render(rb)
  {
    RenderFields(ra);
    RenderFields(rb);
    if ra.returnValue == rb.returnValue {
      var k := 15 + |BoolText(ra.returnValue)| + 13;
      assert Render(ra)[k] != Render(rb)[k];
    } else {
      assert Render(ra)[15] != Render(rb)[15];
    }
  }

  /** Distinct kinds get distinct reply texts. */
  lemma {:induction false} MessagesDistinct(a: SDKError, b: SDKError)
    requires a != b
    ensures GetErrorMessage(a) != GetErrorMessage(b)
  {
    CodesDistinct(a, b);
    RendersDistinct(ReplyOf(a), ReplyOf(b));
  }
}
