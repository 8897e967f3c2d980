/**
 * The storage-read request of `pkg/gio/gio_get_storage_at.go`. A `GioGetStorage` handler
 * sends one request per storage word: the block hash, the contract address and the slot
 * are concatenated, hex-encoded behind "0x" and posted under domain 0x27. Only an
 * answer with status 202 Accepted is taken. The HTTP exchange itself is a parameter
 * (`transport`), JSON marshalling of the request cannot fail, and unmarshalling of the
 * answer is folded into the transport's reply (`body` is `None` when it fails).
 */
module Gio {
  import opened Wrappers
  import opened Encoding
  import opened Domain

  /** The domain of a storage read: what `Handle` puts in every request. */
  const STORAGE_DOMAIN: nat := 0x27
  /** `http.StatusAccepted`, the only status `Handle` accepts. */
  const STATUS_ACCEPTED: nat := 202

  type Uint16 = n: nat | n < 0x1_0000

  datatype GioRequest = GioRequest(domain: Uint16, id: string)
  datatype GioResponse = GioResponse(responseCode: Uint16, response: string)

  /** What one HTTP exchange gives back: the status code and the decoded body, if it decodes. */
  datatype HttpReply = HttpReply(statusCode: nat, body: Option<GioResponse>)

  /** The HTTP exchange: the URL and the request in, a reply or a transport error out. */
  type Transport = (string, GioRequest) -> Result<HttpReply, Error>

  /** The 84 request bytes: block hash (32), address (20, unpadded), slot (32). */
  function RequestBytes(blockHash: Word, address: Address, slot: Word): (bs: seq<Byte>)
    ensures |bs| == 84
  {
    Bytes32(blockHash) + address + Bytes32(slot)
  }

  /** The request id: "0x" and 168 lowercase hex digits. */
  function RequestId(blockHash: Word, address: Address, slot: Word): (id: string)
    ensures |id| == 170 && id[..2] == "0x"
    ensures forall i :: 2 <= i < |id| ==> IsLowerHexDigit(id[i])
  {
    var digits := HexEncode(RequestBytes(blockHash, address, slot));
    HexEncodeLower(RequestBytes(blockHash, address, slot));
    assert forall i :: 2 <= i < 170 ==> ("0x" + digits)[i] == digits[i - 2];
    "0x" + digits
  }

  /** Reads a request id back into the block hash, the address and the slot it names. */
  function ParseRequestId(id: string): Option<(Word, Address, Word)>
  {
    if |id| < 2 || id[..2] != "0x" then None
    else
      match HexDecode(id[2..])
      case Some(bs) =>
        if |bs| != 84 then None
        else
          FromBigEndianBound(bs[..32]);
          FromBigEndianBound(bs[52..]);
          Pow256Word();
          Some((FromBigEndian(bs[..32]), bs[32..52], FromBigEndian(bs[52..])))
      case None => None
  }

  /** The id names exactly the word it was built from. */
  lemma RequestIdRoundTrip(blockHash: Word, address: Address, slot: Word)
    ensures ParseRequestId(RequestId(blockHash, address, slot)) == Some((blockHash, address, slot))
  {
    var bs := RequestBytes(blockHash, address, slot);
    var id := RequestId(blockHash, address, slot);
    assert id[2..] == HexEncode(bs);
    HexRoundTrip(bs);
    assert bs[..32] == Bytes32(blockHash);
    assert bs[32..52] == address;
    assert bs[52..] == Bytes32(slot);
    Bytes32RoundTrip(blockHash);
    Bytes32RoundTrip(slot);
  }

  /** Different words give different request ids. */
  lemma RequestIdInjective(b1: Word, a1: Address, s1: Word, b2: Word, a2: Address, s2: Word)
    requires RequestId(b1, a1, s1) == RequestId(b2, a2, s2)
    ensures b1 == b2 && a1 == a2 && s1 == s2
  {
    RequestIdRoundTrip(b1, a1, s1);
    RequestIdRoundTrip(b2, a2, s2);
  }

  /** The reply check at the end of `Handle`: status 202 first, then a decodable body. */
  function Accept(reply: Result<HttpReply, Error>): (r: Result<GioResponse, Error>)
    ensures r.Ok? <==> reply.Ok? && reply.value.statusCode == STATUS_ACCEPTED && reply.value.body.Some?
    ensures r.Ok? ==> r.value == reply.value.body.value
    ensures reply.Ok? && reply.value.statusCode != STATUS_ACCEPTED ==> r == Err(UnexpectedStatus(reply.value.statusCode))
    ensures reply.Ok? && reply.value.statusCode == STATUS_ACCEPTED && reply.value.body.None? ==> r == Err(InvalidJson)
    ensures reply.Err? ==> r == Err(reply.error)
  {
    match reply
    case Err(e) => Err(e)
    case Ok(HttpReply(code, body)) =>
      if code != STATUS_ACCEPTED then Err(UnexpectedStatus(code))
      else if body.None? then Err(InvalidJson)
      else Ok(body.value)
  }

  /** A storage-read handler: its domain and the base URL of the endpoint. */
  class GioGetStorage {
    const Domain: Uint16
    const BaseUrl: string

    /** `NewGioGetStorage`: keeps both arguments as given. */
    constructor (baseUrl: string, domain: Uint16)
      ensures Domain == domain && BaseUrl == baseUrl
    {
      Domain, BaseUrl := domain, baseUrl;
    }

    /** The request `Handle` posts: domain 0x27 whatever `Domain` holds, and the word's id. */
    function Request(blockHash: Word, address: Address, slot: Word): (req: GioRequest)
      ensures req.domain == STORAGE_DOMAIN
      ensures ParseRequestId(req.id) == Some((blockHash, address, slot))
    {
      RequestIdRoundTrip(blockHash, address, slot);
      GioRequest(STORAGE_DOMAIN, RequestId(blockHash, address, slot))
    }

    /** `Handle`: one exchange with `BaseUrl + "/gio"`, accepted only with status 202. */
    function Handle(transport: Transport, blockHash: Word, address: Address, slot: Word): (r: Result<GioResponse, Error>)
      ensures var reply := transport(BaseUrl + "/gio", Request(blockHash, address, slot));
        (r.Ok? <==> reply.Ok? && reply.value.statusCode == STATUS_ACCEPTED && reply.value.body.Some?)
        && (r.Ok? ==> r.value == reply.value.body.value)
        && (reply.Ok? && reply.value.statusCode != STATUS_ACCEPTED ==> r == Err(UnexpectedStatus(reply.value.statusCode)))
    {
      Accept(transport(BaseUrl + "/gio", Request(blockHash, address, slot)))
    }
  }
}
