/**
 * The request side of the paste API: the acceptance rules for a new paste
 * (content, then ttl_seconds, then max_views), the trimming of the content
 * before it is stored, and the fields of a successful read's response.
 *
 * Requests arrive as parsed JSON bodies; responses are modelled as their status
 * and JSON payload, without the web framework around them.
 */
module PasteController {
  import opened Base
  import opened Helpers
  import opened PasteModel

  // ---------------------------------------------------------------------------
  // Request bodies
  // ---------------------------------------------------------------------------

  /** A field of a parsed JSON body; a key that is not there is Undefined. */
  datatype JsonValue =
    | Undefined
    | Null
    | Bool(b: bool)
    | Number(n: real)
    | Str(s: string)
    | Compound  // an array or an object

  /** The three fields createPasteHandler reads from the body. */
  datatype CreateRequest = CreateRequest(content: JsonValue, ttlSeconds: JsonValue, maxViews: JsonValue)

  /** The three ways a creation request is refused with status 400. */
  datatype ValidationError = InvalidContent | InvalidTtl | InvalidMaxViews

  /** The body field each refusal is about. */
  function FieldName(e: ValidationError): string {
    match e
    case InvalidContent => "content"
    case InvalidTtl => "ttl_seconds"
    case InvalidMaxViews => "max_views"
  }

  /** The `error` text of a 400 response: it opens with the name of the refused field. */
  function ErrorMessage(e: ValidationError): (m: string)
    ensures |FieldName(e)| < |m| && m[..|FieldName(e)| + 1] == FieldName(e) + " "
  {
    match e
    case InvalidContent =>
      var m := "content is required and must be a non-empty string";
      assert forall i :: 0 <= i < 8 ==> m[i] == "content "[i];
      m
    case InvalidTtl => "ttl_seconds must be an integer \U{2265} 1"
    case InvalidMaxViews => "max_views must be an integer \U{2265} 1"
  }

  // ---------------------------------------------------------------------------
  // String.prototype.trim
  // ---------------------------------------------------------------------------

  /** The characters trim removes: ECMAScript white space and line terminators. */
  predicate IsJsWhitespace(c: char) {
    || c == '\t' || c == '\n' || c == '\U{000B}' || c == '\U{000C}' || c == '\r' || c == ' '
    || c == '\U{00A0}' || c == '\U{1680}' || ('\U{2000}' <= c <= '\U{200A}')
    || c == '\U{2028}' || c == '\U{2029}' || c == '\U{202F}' || c == '\U{205F}'
    || c == '\U{3000}' || c == '\U{FEFF}'
  }

  /** s without its leading white space: a suffix of s. */
  function TrimStart(s: string): (r: string)
    ensures |r| <= |s| && r == s[|s| - |r|..]
    ensures forall k :: 0 <= k < |s| - |r| ==> IsJsWhitespace(s[k])
    ensures r == [] || !IsJsWhitespace(r[0])
    decreases |s|
  {
    if s != [] && IsJsWhitespace(s[0]) then TrimStart(s[1..]) else s
  }

  /** s without its trailing white space: a prefix of s. */
  function TrimEnd(s: string): (r: string)
    ensures |r| <= |s| && r == s[..|r|]
    ensures forall k :: |r| <= k < |s| ==> IsJsWhitespace(s[k])
    ensures r == [] || !IsJsWhitespace(r[|r| - 1])
    decreases |s|
  {
    if s != [] && IsJsWhitespace(s[|s| - 1]) then TrimEnd(s[..|s| - 1]) else s
  }

  /** `s.trim()`. */
  function Trim(s: string): (r: string)
    ensures |r| <= |s|
    ensures r == [] || (!IsJsWhitespace(r[0]) && !IsJsWhitespace(r[|r| - 1]))
  {
    TrimEnd(TrimStart(s))
  }

  /**
   * Trim keeps a contiguous middle part of s and removes only white space
   * around it; what it keeps neither starts nor ends with white space.
   */
  lemma TrimKeepsMiddle(s: string) returns (start: nat)
    ensures start + |Trim(s)| <= |s| && Trim(s) == s[start..start + |Trim(s)|]
    ensures forall k :: 0 <= k < start ==> IsJsWhitespace(s[k])
    ensures forall k :: start + |Trim(s)| <= k < |s| ==> IsJsWhitespace(s[k])
    ensures Trim(s) == [] || (!IsJsWhitespace(Trim(s)[0]) && !IsJsWhitespace(Trim(s)[|Trim(s)| - 1]))
  {
    var t := TrimStart(s);
    var r := TrimEnd(t);
    start := |s| - |t|;
    assert r == t[..|r|];
    assert s[start..start + |r|] == t[..|r|];
    forall k | start + |r| <= k < |s| ensures IsJsWhitespace(s[k]) {
      assert s[k] == t[k - start];
    }
  }

  /** Trimming twice is trimming once. */
  lemma TrimIdempotent(s: string)
    ensures Trim(Trim(s)) == Trim(s)
  {
    var r := Trim(s);
    var _ := TrimKeepsMiddle(s);
    assert TrimStart(r) == r;
    assert TrimEnd(r) == r;
  }

  /** Trim yields the empty string exactly when s is all white space. */
  lemma TrimEmptyIffBlank(s: string)
    ensures Trim(s) == [] <==> forall k :: 0 <= k < |s| ==> IsJsWhitespace(s[k])
  {
    var start := TrimKeepsMiddle(s);
  }

  // ---------------------------------------------------------------------------
  // Validation of a creation request
  // ---------------------------------------------------------------------------

  /** JavaScript falsiness of a JSON value (`!v`). */
  predicate Falsy(v: JsonValue) {
    || v.Undefined? || v.Null?
    || (v.Bool? && !v.b)
    || (v.Number? && v.n == 0.0)
    || (v.Str? && v.s == [])
  }

  /** `Number.isInteger` on a finite number. */
  predicate IsInteger(n: real) {
    n.Floor as real == n
  }

  /** The content test: missing or falsy, not a string, or empty once trimmed. */
  predicate ContentRejected(v: JsonValue) {
    Falsy(v) || !v.Str? || |Trim(v.s)| == 0
  }

  /** The ttl_seconds and max_views test: present, and not a number, below 1 or fractional. */
  predicate CountRejected(v: JsonValue) {
    !v.Undefined? && (!v.Number? || v.n < 1.0 || !IsInteger(v.n))
  }

  /** An accepted count field as the store receives it. */
  function CountValue(v: JsonValue): (r: Option<int>)
    requires !CountRejected(v)
    ensures r.None? <==> v.Undefined?
    ensures r.Some? ==> r.value >= 1 && r.value as real == v.n
  {
    if v.Undefined? then None else Some(v.n.Floor)
  }

  /**
   * The checks of createPasteHandler in their order; the first failing one
   * decides the error. An accepted request becomes the data handed to the store,
   * with the content trimmed.
   */
  function ValidateCreate(req: CreateRequest): (r: Result<CreatePasteData, ValidationError>)
    ensures r.Success? <==>
      && req.content.Str? && Trim(req.content.s) != []
      && (req.ttlSeconds.Undefined? || (req.ttlSeconds.Number? && req.ttlSeconds.n >= 1.0 && IsInteger(req.ttlSeconds.n)))
      && (req.maxViews.Undefined? || (req.maxViews.Number? && req.maxViews.n >= 1.0 && IsInteger(req.maxViews.n)))
    ensures r == Failure(InvalidContent) <==> ContentRejected(req.content)
    ensures r == Failure(InvalidTtl) <==> !ContentRejected(req.content) && CountRejected(req.ttlSeconds)
    ensures r == Failure(InvalidMaxViews) <==>
      !ContentRejected(req.content) && !CountRejected(req.ttlSeconds) && CountRejected(req.maxViews)
    ensures r.Success? ==>
      && r.value.content == Trim(req.content.s)
      && r.value.content != []
      && (r.value.ttlSeconds.None? || r.value.ttlSeconds.value >= 1)
      && (r.value.maxViews.None? || r.value.maxViews.value >= 1)
      && r.value.ttlSeconds == CountValue(req.ttlSeconds)
      && r.value.maxViews == CountValue(req.maxViews)
  {
    if ContentRejected(req.content) then Failure(InvalidContent)
    else if CountRejected(req.ttlSeconds) then Failure(InvalidTtl)
    else if CountRejected(req.maxViews) then Failure(InvalidMaxViews)
    else Success(CreatePasteData(Trim(req.content.s), CountValue(req.ttlSeconds), CountValue(req.maxViews)))
  }

  /**
   * Content is accepted exactly when it is a string with a character that is not
   * white space; the falsiness test adds nothing to the other two.
   */
  lemma ContentRule(v: JsonValue)
    ensures !ContentRejected(v) <==> v.Str? && exists k :: 0 <= k < |v.s| && !IsJsWhitespace(v.s[k])
  {
    if v.Str? {
      TrimEmptyIffBlank(v.s);
    }
  }

  /** The stored content is already trimmed: trimming it again changes nothing. */
  lemma AcceptedContentIsTrimmed(req: CreateRequest)
    requires ValidateCreate(req).Success?
    ensures Trim(ValidateCreate(req).value.content) == ValidateCreate(req).value.content
  {
    TrimIdempotent(req.content.s);
  }

  // ---------------------------------------------------------------------------
  // Responses
  // ---------------------------------------------------------------------------

  /** The outcome of createPasteHandler: 201 with the id, 400 with the error, or 500. */
  datatype CreateResponse = Created(id: string) | BadRequest(error: ValidationError) | ServerError

  /** The JSON payload of a successful read. */
  datatype PasteView = PasteView(content: string, remainingViews: Option<int>, expiresAt: Option<int>)

  /** The outcome of getPasteHandler: 200 with the payload, or 404. */
  datatype GetResponse = Found(view: PasteView) | NotFound

  function CreateStatus(resp: CreateResponse): int {
    match resp
    case Created(_) => 201
    case BadRequest(_) => 400
    case ServerError => 500
  }

  function GetStatus(resp: GetResponse): int {
    if resp.Found? then 200 else 404
  }

  /** Views left: only for a paste with a (truthy) view limit. */
  function RemainingViews(p: Paste): (r: Option<int>)
    ensures r.None? <==> !Truthy(p.maxViews)
    ensures r.Some? ==> p.views + r.value == p.maxViews.value
  {
    if Truthy(p.maxViews) then Some(p.maxViews.value - p.views) else None
  }

  /** The payload for a paste just read. */
  function ToView(p: Paste): (v: PasteView)
    ensures v.content == p.content
    ensures v.remainingViews == RemainingViews(p)
    ensures v.expiresAt.None? <==> p.expiresAt.None?
  {
    PasteView(p.content, RemainingViews(p), p.expiresAt)
  }

  /**
   * On every successful read the remaining views are never negative: the paste
   * was live, so below its limit, before the view was counted. The read that
   * uses the last view reports 0.
   */
  lemma RemainingViewsNonNegative(t: Table, id: string, now: int)
    requires ReadResult(t, id, now).Some?
    ensures var p := ReadResult(t, id, now).value;
      && (RemainingViews(p).None? || RemainingViews(p).value >= 0)
      && (RemainingViews(p) == Some(0) ==> ReadResult(AfterRead(t, id, now), id, now).None?)
  {
  }

  /**
   * createPasteHandler: validate the body and, if it passes, store the trimmed
   * content. A refused request creates nothing; a duplicate id is a server error.
   */
  method CreatePasteHandler(store: PasteStore, req: CreateRequest, draws: seq<nat>, now: int)
    returns (resp: CreateResponse)
    requires store.Valid() && ValidDraws(draws)
    modifies store
    ensures store.Valid()
    ensures ValidateCreate(req).Failure? ==>
      resp == BadRequest(ValidateCreate(req).error) && store.pastes == old(store.pastes)
    ensures resp.ServerError? ==> store.pastes == old(store.pastes)
    ensures resp.BadRequest? ==> ValidateCreate(req).Failure?
    ensures ValidateCreate(req).Success? && IdFromDraws(draws) in old(store.pastes) ==>
      resp == ServerError && store.pastes == old(store.pastes)
    ensures CreateStatus(resp) == 400 <==> ValidateCreate(req).Failure?
    ensures resp.Created? ==>
      && ValidateCreate(req).Success?
      && resp.id == IdFromDraws(draws)
      && resp.id !in old(store.pastes)
      && store.pastes == old(store.pastes)[resp.id := NewPaste(resp.id, ValidateCreate(req).value, now)]
      && store.pastes[resp.id].content == Trim(req.content.s)
      && store.pastes[resp.id].ttlSeconds == OrNull(CountValue(req.ttlSeconds))
      && store.pastes[resp.id].maxViews == OrNull(CountValue(req.maxViews))
    ensures ValidateCreate(req).Success? && IdFromDraws(draws) !in old(store.pastes) ==> resp.Created?
  {
    var checked := ValidateCreate(req);
    if checked.Failure? {
      return BadRequest(checked.error);
    }
    var created := store.CreatePaste(checked.value, draws, now);
    if created.Failure? {
      return ServerError;
    }
    resp := Created(created.value.id);
  }

  /**
   * getPasteHandler: read the paste at `now` and answer with its content, the
   * views left and its expiry, or with 404.
   */
  method GetPasteHandler(store: PasteStore, id: string, now: int) returns (resp: GetResponse)
    requires store.Valid()
    modifies store
    ensures store.Valid()
    ensures store.pastes == AfterRead(old(store.pastes), id, now)
    ensures ReadResult(old(store.pastes), id, now).None? <==> resp == NotFound
    ensures GetStatus(resp) == 404 <==> ReadResult(old(store.pastes), id, now).None?
    ensures resp.Found? ==>
      && resp.view == ToView(ReadResult(old(store.pastes), id, now).value)
      && resp.view.content == old(store.pastes)[id].content
      && (resp.view.remainingViews.None? || resp.view.remainingViews.value >= 0)
      && (resp.view.expiresAt.None? <==> old(store.pastes)[id].expiresAt.None?)
  {
    ghost var before := store.pastes;
    var paste := store.GetPaste(id, now);
    if paste.None? {
      return NotFound;
    }
    RemainingViewsNonNegative(before, id, now);
    resp := Found(ToView(paste.value));
  }
}
