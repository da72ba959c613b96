/** The part of `get_image_url` that both scripts share: the request sent to
    Figma's image-rendering endpoint, the abstract shape of its answer, and
    the key-lookup rule that reconciles the `-` separator of URL node ids with
    the `:` separator of API node ids. */
module ImageApi {
  import opened Common

  const ImagesEndpoint: string := "https://api.figma.com/v1/images/"
  /** `format="png"` and `scale=1`, the defaults every caller uses. */
  const DefaultFormat: string := "png"
  const DefaultScale: int := 1

  /** `requests.get(url, headers={"X-Figma-Token": token}, params={ids, format, scale})`. */
  datatype ImageRequest = ImageRequest(url: string, token: Option<string>, ids: string, format: string, scale: int)

  /** What the request produced. `RequestFailed` is any
      `requests.exceptions.RequestException`: no connection, a timeout, an
      HTTP error status raised by `raise_for_status`, or a body that is not
      JSON. `Payload` is the decoded body; an absent `"images"` member is the
      empty map (`data.get("images", {})`) and an absent `"err"` is `None`. */
  datatype Response =
    | RequestFailed
    | Payload(err: Option<string>, images: map<string, Option<string>>)

  /** `node_id.replace("-", ":")`. */
  function FormatNodeId(nodeId: string): (r: string)
    ensures |r| == |nodeId|
    ensures forall i :: 0 <= i < |r| ==> r[i] == (if nodeId[i] == '-' then ':' else nodeId[i])
    ensures '-' !in r
  {
    if nodeId == [] then []
    else [if nodeId[0] == '-' then ':' else nodeId[0]] + FormatNodeId(nodeId[1..])
  }

  /** Rewriting an id that is already in API form changes nothing. */
  lemma FormatNodeIdIdempotent(nodeId: string)
    ensures FormatNodeId(FormatNodeId(nodeId)) == FormatNodeId(nodeId)
  {
    var once := FormatNodeId(nodeId);
    var twice := FormatNodeId(once);
    assert forall i :: 0 <= i < |once| ==> twice[i] == once[i];
  }

  /** The rewritten id equals the original exactly when the original has no `-`;
      only then do the two lookups of `LookupImage` ask for the same key. */
  lemma FormatNodeIdUnchangedIff(nodeId: string)
    ensures FormatNodeId(nodeId) == nodeId <==> '-' !in nodeId
  {
    var r := FormatNodeId(nodeId);
    if '-' in nodeId {
      var i :| 0 <= i < |nodeId| && nodeId[i] == '-';
      assert r[i] == ':';
    } else {
      assert forall i :: 0 <= i < |r| ==> r[i] == nodeId[i];
    }
  }

  /** The request `get_image_url(file_id, node_id)` sends. */
  function BuildRequest(fileId: string, nodeId: string, token: Option<string>): (req: ImageRequest)
    ensures req.url == ImagesEndpoint + fileId && req.token == token
    ensures req.ids == FormatNodeId(nodeId) && |req.ids| == |nodeId| && '-' !in req.ids
    ensures req.format == DefaultFormat && req.scale == DefaultScale
  {
    ImageRequest(ImagesEndpoint + fileId, token, FormatNodeId(nodeId), DefaultFormat, DefaultScale)
  }

  /** `if data.get("err")`: a server-reported failure is a truthy `err`, so an
      empty string counts as no error. */
  predicate IsApiError(resp: Response)
    requires resp.Payload?
  {
    Truthy(resp.err)
  }

  /** The key lookup of `get_image_url`: the original node id first, then the
      rewritten one. The outer `Option` says whether a key was found, the
      inner one is the (possibly `null`) value stored under it. */
  function LookupImage(images: map<string, Option<string>>, nodeId: string): (r: Option<Option<string>>)
    ensures nodeId in images ==> r == Some(images[nodeId])
    ensures nodeId !in images && FormatNodeId(nodeId) in images ==> r == Some(images[FormatNodeId(nodeId)])
    ensures r.None? <==> nodeId !in images && FormatNodeId(nodeId) !in images
  {
    var formatted := FormatNodeId(nodeId);
    if nodeId in images then Some(images[nodeId])
    else if formatted in images then Some(images[formatted])
    else None
  }

  /** The value stored under the chosen key, or `None` when the request
      failed, the server reported an error, or no key matched. */
  function ImageEntry(resp: Response, nodeId: string): (r: Option<Option<string>>)
    ensures resp.RequestFailed? ==> r.None?
    ensures resp.Payload? && IsApiError(resp) ==> r.None?
    ensures resp.Payload? && !IsApiError(resp) ==> r == LookupImage(resp.images, nodeId)
  {
    match resp
    case RequestFailed => None
    case Payload(err, images) => if Truthy(err) then None else LookupImage(images, nodeId)
  }

  /** The original id wins even when the rewritten id is also a key: with
      `{"1:2": "u1", "1-2": "u2"}` and node id `1-2` the lookup yields `u2`. */
  lemma OriginalKeyWins()
    ensures LookupImage(map["1:2" := Some("u1"), "1-2" := Some("u2")], "1-2") == Some(Some("u2"))
  {
  }

  /** With only the rewritten key present, the lookup falls back to it. */
  lemma RewrittenKeyFallback()
    ensures LookupImage(map["1:2" := Some("u1")], "1-2") == Some(Some("u1"))
  {
    assert FormatNodeId("1-2") == "1:2";
  }
}
