// Page sizes and page tokens, shared by the samplr and leif APIs (the two
// page_utils.go files are the same code). A token records the time of the
// first request and the offset of the next page. Its protobuf and base64
// wire form is not modelled byte by byte: a token string is either empty,
// the encoding of a token value, or some other text.
module PageUtils {
  import opened Wrappers

  const ErrNilPageToken := "nil PageToken"
  const ErrTimestampRange := "timestamp out of range"

  /** The smallest and one past the largest second a protobuf Timestamp may hold (years 1 to 9999). */
  const MinValidSeconds: int := -62135596800
  const MaxValidSeconds: int := 253402300800

  /** A protobuf Timestamp: whole seconds and the nanoseconds within that second. */
  datatype Timestamp = Timestamp(seconds: int, nanos: int)

  /** The fields of a PageToken message, as they travel on the wire. */
  datatype TokenValue = TokenValue(firstRequestTime: Option<Timestamp>, offset: int)

  /** A page token string: "", the encoding of a token, or text from elsewhere. */
  datatype TokenString = Blank | Wire(token: TokenValue) | Other(text: string)

  /** Go's int32(idx): the low 32 bits of idx, read as a signed number. */
  function Int32(idx: int): (r: int)
    ensures -0x8000_0000 <= r < 0x8000_0000
    ensures (r - idx) % 0x1_0000_0000 == 0
    ensures -0x8000_0000 <= idx < 0x8000_0000 ==> r == idx
  {
    (idx + 0x8000_0000) % 0x1_0000_0000 - 0x8000_0000
  }

  /** getPageSize: the requested size when it lies strictly between 0 and 100, otherwise 100. */
  function GetPageSize(reqPageSize: int): (r: int)
    ensures 1 <= r <= 100
    ensures 0 < reqPageSize < 100 ==> r == reqPageSize
    ensures !(0 < reqPageSize < 100) ==> r == 100
  {
    if 0 < reqPageSize && reqPageSize < 100 then reqPageSize else 100
  }

  /** ptypes.TimestampProto on a time given in nanoseconds since the epoch. */
  function TimestampProto(t: int): (r: Result<Timestamp>)
    ensures r.Ok? <==> MinValidSeconds <= t / 1000000000 < MaxValidSeconds
    ensures r.Ok? ==>
      (r.value.seconds * 1000000000 + r.value.nanos == t && 0 <= r.value.nanos < 1000000000)
  {
    var secs := t / 1000000000;
    if secs < MinValidSeconds || secs >= MaxValidSeconds then Err(ErrTimestampRange)
    else Ok(Timestamp(secs, t % 1000000000))
  }

  /** A mutable PageToken message, as the callers hold it. */
  class PageToken {
    var firstRequestTime: Option<Timestamp>
    var offset: int

    constructor (firstRequestTime: Option<Timestamp>, offset: int)
      ensures this.firstRequestTime == firstRequestTime && this.offset == offset
    {
      this.firstRequestTime := firstRequestTime;
      this.offset := offset;
    }

    function Value(): TokenValue
      reads this
    {
      TokenValue(firstRequestTime, offset)
    }
  }

  /**
   * makeNextPageToken: "" with an error for a nil token, "" for a
   * non-positive index, and otherwise the encoding of the caller's token
   * after its offset has been overwritten with idx.
   */
  method MakeNextPageToken(prev: PageToken?, idx: int) returns (tok: TokenString, err: Option<string>)
    modifies prev
    ensures prev == null ==> tok == Blank && err == Some(ErrNilPageToken)
    ensures prev != null && idx <= 0 ==> tok == Blank && err.None? && prev.offset == old(prev.offset)
    ensures prev != null && idx > 0 ==>
      (err.None? && prev.offset == Int32(idx) && tok == Wire(TokenValue(old(prev.firstRequestTime), Int32(idx))))
    ensures prev != null ==> prev.firstRequestTime == old(prev.firstRequestTime)
  {
    tok := Blank;
    if prev == null {
      return Blank, Some(ErrNilPageToken);
    }
    if idx > 0 {
      prev.offset := Int32(idx);
      tok := Wire(prev.Value());
    }
    err := None;
  }

  /** The string makeFirstPageToken returns for the time t and the index idx. */
  function FirstPageToken(t: int, idx: int): (r: Result<TokenString>)
    ensures TimestampProto(t).Err? ==> r.Err?
    ensures r.Ok? && idx <= 0 ==> r.value == Blank
    ensures r.Ok? && idx > 0 ==>
      (r.value.Wire? && r.value.token.offset == Int32(idx)
       && r.value.token.firstRequestTime == Some(TimestampProto(t).value))
  {
    match TimestampProto(t)
    case Err(e) => Err(e)
    case Ok(ts) => Ok(if idx > 0 then Wire(TokenValue(Some(ts), Int32(idx))) else Blank)
  }

  /** makeFirstPageToken: a fresh token at time t with offset idx, encoded as makeNextPageToken does. */
  method MakeFirstPageToken(t: int, idx: int) returns (tok: TokenString, err: Option<string>)
    ensures err.None? <==> FirstPageToken(t, idx).Ok?
    ensures err.None? ==> tok == FirstPageToken(t, idx).value
    ensures err.Some? ==> tok == Blank
  {
    var tsp := TimestampProto(t);
    if tsp.Err? {
      return Blank, Some(tsp.msg);
    }
    var token := new PageToken(Some(tsp.value), Int32(idx));
    tok, err := MakeNextPageToken(token, idx);
  }

  /**
   * decodePageToken: the base64 error is dropped, so "" decodes to an empty
   * token; the encoding of a token decodes to that token; any other text is
   * left to the protobuf decoder, given here as a function.
   */
  function DecodePageToken(req: TokenString, unmarshal: string -> Result<TokenValue>): (r: Result<TokenValue>)
    ensures req.Blank? ==> r == Ok(TokenValue(None, 0))
    ensures req.Wire? ==> r == Ok(req.token)
    ensures req.Other? ==> r == unmarshal(req.text)
  {
    match req
    case Blank => Ok(TokenValue(None, 0))
    case Wire(t) => Ok(t)
    case Other(text) => unmarshal(text)
  }

  /** A first-page token for a positive index that fits in 32 bits decodes to that offset and that time. */
  lemma FirstTokenRoundTrip(t: int, idx: int, unmarshal: string -> Result<TokenValue>)
    requires 0 < idx < 0x8000_0000
    requires MinValidSeconds <= t / 1000000000 < MaxValidSeconds
    ensures FirstPageToken(t, idx).Ok?
    ensures var d := DecodePageToken(FirstPageToken(t, idx).value, unmarshal);
      d.Ok? && d.value.offset == idx && d.value.firstRequestTime.Some?
      && d.value.firstRequestTime.value.seconds * 1000000000 + d.value.firstRequestTime.value.nanos == t
  {
  }
}
