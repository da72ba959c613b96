/** The batch core of `FigmaImageExporter` in figma_tui.py: `get_image_url`,
    the link-resolution pass `process_urls`, the download pass
    `download_images` with its file-name sanitisation, and the settings merge
    of `load_config`. The HTTP traffic is an oracle: `fetch` answers an image
    request, `download` says whether streaming a URL into a file succeeded. */
module Exporter {
  import opened Common
  import opened FigmaUrl
  import opened ImageApi

  /** `item.get("name", "Unknown")` and `item.get("url", "")`. */
  const DefaultName: string := "Unknown"
  const DefaultUrl: string := ""
  const ImageExtension: string := ".png"

  /** One entry of a JSON list of records: the URL list read by `load_urls`, or
      the image list handed to `download_images`. A key missing from the JSON
      object is `None`. */
  datatype Record = Record(name: Option<string>, url: Option<string>)

  /** The `{"name", "url", "original_url"}` object `process_urls` appends. */
  datatype ResolvedImage = ResolvedImage(name: string, url: string, originalUrl: string)

  function NameOf(r: Record): string { r.name.GetOr(DefaultName) }
  function UrlOf(r: Record): string { r.url.GetOr(DefaultUrl) }

  /** `FigmaImageExporter.get_image_url`: the raw value stored under the
      chosen key is returned, so a `null` or empty URL comes back as is. */
  function GetImageUrl(fileId: string, nodeId: string, token: Option<string>,
                       fetch: ImageRequest -> Response): (r: Option<string>)
    ensures fetch(BuildRequest(fileId, nodeId, token)).RequestFailed? ==> r.None?
    ensures var resp := fetch(BuildRequest(fileId, nodeId, token));
      (resp.Payload? && IsApiError(resp) ==> r.None?)
    ensures var resp := fetch(BuildRequest(fileId, nodeId, token));
      (resp.Payload? && !IsApiError(resp) && nodeId in resp.images ==> r == resp.images[nodeId])
    ensures var resp := fetch(BuildRequest(fileId, nodeId, token));
      (resp.Payload? && !IsApiError(resp) && nodeId !in resp.images && FormatNodeId(nodeId) in resp.images ==>
         r == resp.images[FormatNodeId(nodeId)])
    ensures var resp := fetch(BuildRequest(fileId, nodeId, token));
      (resp.Payload? && nodeId !in resp.images && FormatNodeId(nodeId) !in resp.images ==> r.None?)
  {
    match ImageEntry(fetch(BuildRequest(fileId, nodeId, token)), nodeId)
    case None => None
    case Some(value) => value
  }

  /** The request `process_urls` sends for one record, if it sends one:
      only when both ids were extracted. */
  function RequestFor(rec: Record, token: Option<string>): (r: Option<ImageRequest>)
    ensures r.Some? <==> Extract(UrlOf(rec)).fileId.Some? && Extract(UrlOf(rec)).nodeId.Some?
    ensures r.Some? ==> '-' !in r.value.ids
    ensures r.Some? ==>
      var ref := Extract(UrlOf(rec));
      r.value == BuildRequest(ref.fileId.value, ref.nodeId.value, token)
  {
    var ref := Extract(UrlOf(rec));
    if Truthy(ref.fileId) && Truthy(ref.nodeId) then
      Some(BuildRequest(ref.fileId.value, ref.nodeId.value, token))
    else None
  }

  /** One iteration of the `process_urls` loop: the entry it appends, if any. */
  function ResolveRecord(rec: Record, token: Option<string>, fetch: ImageRequest -> Response): (r: Option<ResolvedImage>)
    ensures r.Some? ==> RequestFor(rec, token).Some?
    ensures r.Some? <==>
      var ref := Extract(UrlOf(rec));
      ref.fileId.Some? && ref.nodeId.Some? && Truthy(GetImageUrl(ref.fileId.value, ref.nodeId.value, token, fetch))
    ensures r.Some? ==> r.value.name == NameOf(rec) && r.value.originalUrl == UrlOf(rec) && r.value.url != ""
    ensures r.Some? ==>
      var ref := Extract(UrlOf(rec));
      GetImageUrl(ref.fileId.value, ref.nodeId.value, token, fetch) == Some(r.value.url)
  {
    var name, url := NameOf(rec), UrlOf(rec);
    var ref := Extract(url);
    if Truthy(ref.fileId) && Truthy(ref.nodeId) then
      var imageUrl := GetImageUrl(ref.fileId.value, ref.nodeId.value, token, fetch);
      if Truthy(imageUrl) then Some(ResolvedImage(name, imageUrl.value, url)) else None
    else None
  }

  function Resolver(token: Option<string>, fetch: ImageRequest -> Response): Record -> Option<ResolvedImage> {
    rec => ResolveRecord(rec, token, fetch)
  }

  function Requester(token: Option<string>): Record -> Option<ImageRequest> {
    rec => RequestFor(rec, token)
  }

  /** What `process_urls` returns for a non-empty list: the records that
      resolved, in input order. */
  function ResolveAll(recs: seq<Record>, token: Option<string>, fetch: ImageRequest -> Response): (r: seq<ResolvedImage>)
    ensures |r| <= |recs|
  {
    FilterMap(recs, Resolver(token, fetch))
  }

  /** The requests `process_urls` sends, in order. */
  function RequestsSent(recs: seq<Record>, token: Option<string>): (r: seq<ImageRequest>)
    ensures |r| <= |recs|
  {
    FilterMap(recs, Requester(token))
  }

  /** `process_urls` is an order-preserving filter-and-map: the k-th output
      comes from the k-th record that resolved, carrying that record's name and
      URL, the positions of those records increase, and a record is left out
      exactly when it did not resolve. */
  lemma ResolveAllIsOrderedFilter(recs: seq<Record>, token: Option<string>, fetch: ImageRequest -> Response)
    ensures var out, idx := ResolveAll(recs, token, fetch), KeptIndices(recs, Resolver(token, fetch));
      && |out| == |idx| <= |recs|
      && (forall k :: 0 <= k < |idx| ==> idx[k] < |recs| && ResolveRecord(recs[idx[k]], token, fetch) == Some(out[k]))
      && (forall k :: 0 <= k < |idx| ==>
            out[k].name == NameOf(recs[idx[k]]) && out[k].originalUrl == UrlOf(recs[idx[k]]) && out[k].url != "")
      && (forall k, l :: 0 <= k < l < |idx| ==> idx[k] < idx[l])
      && (forall i :: 0 <= i < |recs| ==> (ResolveRecord(recs[i], token, fetch).Some? <==> i in idx))
  {
    FilterMapIsOrderedFilter(recs, Resolver(token, fetch));
  }

  /** `process_urls` sends its requests in input order: the k-th request is
      the one for the k-th record with both ids, and a record gets a request
      exactly when both ids were extracted from its URL. */
  lemma RequestsSentIsOrderedFilter(recs: seq<Record>, token: Option<string>)
    ensures var sent, idx := RequestsSent(recs, token), KeptIndices(recs, Requester(token));
      && |sent| == |idx| <= |recs|
      && (forall k :: 0 <= k < |idx| ==> idx[k] < |recs| && RequestFor(recs[idx[k]], token) == Some(sent[k]))
      && (forall k, l :: 0 <= k < l < |idx| ==> idx[k] < idx[l])
      && (forall i :: 0 <= i < |recs| ==>
            (Extract(UrlOf(recs[i])).fileId.Some? && Extract(UrlOf(recs[i])).nodeId.Some? <==> i in idx))
  {
    FilterMapIsOrderedFilter(recs, Requester(token));
  }

  /** Every record that ends up in the output caused a request; no request is
      sent for a record whose URL lacks a file id or a node id. */
  lemma {:induction false} KeptRecordsWereRequested(recs: seq<Record>, token: Option<string>, fetch: ImageRequest -> Response)
    ensures |ResolveAll(recs, token, fetch)| <= |RequestsSent(recs, token)|
    decreases |recs|
  {
    if recs != [] {
      KeptRecordsWereRequested(recs[..|recs| - 1], token, fetch);
    }
  }

  /** A record that fails (bad URL, API error, missing key, empty URL) is
      skipped without affecting any other record. */
  lemma FailedRecordIsSkipped(a: seq<Record>, rec: Record, b: seq<Record>, token: Option<string>, fetch: ImageRequest -> Response)
    requires ResolveRecord(rec, token, fetch).None?
    ensures ResolveAll(a + [rec] + b, token, fetch) == ResolveAll(a + b, token, fetch)
  {
    FilterMapSkip(a, rec, b, Resolver(token, fetch));
  }

  /** The body of the `process_urls` loop for one record: the request it
      sends, if any, and the entry it appends, if any. */
  method ResolveItem(item: Record, token: Option<string>, fetch: ImageRequest -> Response)
    returns (entry: Option<ResolvedImage>, request: Option<ImageRequest>)
    ensures entry == ResolveRecord(item, token, fetch)
    ensures request == RequestFor(item, token)
  {
    entry, request := None, None;
    var name, url := NameOf(item), UrlOf(item);
    var ref := Extract(url);
    if Truthy(ref.fileId) && Truthy(ref.nodeId) {
      request := Some(BuildRequest(ref.fileId.value, ref.nodeId.value, token));
      var imageUrl := GetImageUrl(ref.fileId.value, ref.nodeId.value, token, fetch);
      if Truthy(imageUrl) {
        entry := Some(ResolvedImage(name, imageUrl.value, url));
      }
    }
  }

  /** Handling one more record appends its entry and its request, if any. */
  lemma ResolveAllSnoc(recs: seq<Record>, i: nat, token: Option<string>, fetch: ImageRequest -> Response)
    requires i < |recs|
    ensures ResolveAll(recs[..i + 1], token, fetch) == ResolveAll(recs[..i], token, fetch) + Kept(ResolveRecord(recs[i], token, fetch))
    ensures RequestsSent(recs[..i + 1], token) == RequestsSent(recs[..i], token) + Kept(RequestFor(recs[i], token))
  {
    FilterMapSnoc(recs, i, Resolver(token, fetch));
    FilterMapSnoc(recs, i, Requester(token));
  }

  /** One pass of the `process_urls` loop: the request and the entry for
      `loaded[i]` are appended to what the earlier records produced. */
  method ProcessItem(loaded: seq<Record>, i: nat, imageData: seq<ResolvedImage>, sent: seq<ImageRequest>,
                     token: Option<string>, fetch: ImageRequest -> Response)
    returns (imageData': seq<ResolvedImage>, sent': seq<ImageRequest>)
    requires i < |loaded|
    requires imageData == ResolveAll(loaded[..i], token, fetch) && sent == RequestsSent(loaded[..i], token)
    ensures imageData' == ResolveAll(loaded[..i + 1], token, fetch)
    ensures sent' == RequestsSent(loaded[..i + 1], token)
  {
    var entry, request := ResolveItem(loaded[i], token, fetch);
    ResolveAllSnoc(loaded, i, token, fetch);
    imageData', sent' := imageData, sent;
    if request.Some? {
      sent' := sent' + [request.value];
    }
    if entry.Some? {
      imageData' := imageData' + [entry.value];
    }
  }

  /** `process_urls` after `load_urls` produced `loaded`. It returns the
      resolved images and, as an observable effect, the image requests it
      sent; an empty list returns at once without any request. */
  method ProcessUrls(loaded: seq<Record>, token: Option<string>, fetch: ImageRequest -> Response)
    returns (imageData: seq<ResolvedImage>, sent: seq<ImageRequest>)
    ensures imageData == ResolveAll(loaded, token, fetch)
    ensures sent == RequestsSent(loaded, token)
    ensures loaded == [] ==> imageData == [] && sent == []
  {
    if |loaded| == 0 {
      return [], [];
    }
    imageData, sent := [], [];
    var i := 0;
    assert loaded[..i] == [];
    while i < |loaded|
      invariant 0 <= i <= |loaded|
      invariant imageData == ResolveAll(loaded[..i], token, fetch)
      invariant sent == RequestsSent(loaded[..i], token)
    {
      imageData, sent := ProcessItem(loaded, i, imageData, sent, token, fetch);
      i := i + 1;
    }
    assert loaded[..i] == loaded;
  }

  /** `\w` as the ASCII class `[A-Za-z0-9_]`. */
  predicate IsWordChar(c: char) {
    IsAsciiAlnum(c) || c == '_'
  }

  /** The characters `[^\w\-_\.]` leaves alone. */
  predicate IsSafeChar(c: char) {
    IsWordChar(c) || c == '-' || c == '_' || c == '.'
  }

  /** `re.sub(r'[^\w\-_\.]', '_', name)`: one character out for one character in. */
  function SanitizeName(name: string): (r: string)
    ensures |r| == |name|
    ensures forall i :: 0 <= i < |r| ==> IsSafeChar(r[i])
    ensures forall i :: 0 <= i < |r| ==> r[i] == name[i] || r[i] == '_'
    ensures forall i :: 0 <= i < |r| ==> IsSafeChar(name[i]) ==> r[i] == name[i]
  {
    seq(|name|, i requires 0 <= i < |name| => if IsSafeChar(name[i]) then name[i] else '_')
  }

  /** Sanitising twice is sanitising once. */
  lemma SanitizeIdempotent(name: string)
    ensures SanitizeName(SanitizeName(name)) == SanitizeName(name)
  {
    var once := SanitizeName(name);
    assert forall i :: 0 <= i < |once| ==> SanitizeName(once)[i] == once[i];
  }

  /** A name is left unchanged exactly when every character is safe. */
  lemma SanitizeUnchangedIff(name: string)
    ensures SanitizeName(name) == name <==> forall i :: 0 <= i < |name| ==> IsSafeChar(name[i])
  {
    if forall i :: 0 <= i < |name| ==> IsSafeChar(name[i]) {
      assert forall i :: 0 <= i < |name| ==> SanitizeName(name)[i] == name[i];
    }
  }

  /** `f"{safe_name}.png"`. */
  function FileNameFor(name: string): (r: string)
    ensures |r| == |name| + |ImageExtension|
    ensures r[..|name|] == SanitizeName(name) && r[|name|..] == ImageExtension
  {
    SanitizeName(name) + ImageExtension
  }

  /** `Icon/Set #1` is stored as `Icon_Set__1.png`. */
  lemma ExampleFileName()
    ensures FileNameFor("Icon/Set #1") == "Icon_Set__1.png"
  {
    var s := SanitizeName("Icon/Set #1");
    assert s == "Icon_Set__1";
  }

  /** Names that differ only in unsafe characters share a file: the later
      download overwrites the earlier one. */
  lemma NamesMayCollide()
    ensures FileNameFor("a/b") == FileNameFor("a b")
  {
    assert SanitizeName("a/b") == "a_b";
    assert SanitizeName("a b") == "a_b";
  }

  /** One `download_image(url, filename)` call. */
  datatype DownloadRequest = DownloadRequest(url: string, fileName: string)

  function DownloadFor(item: Record): DownloadRequest {
    DownloadRequest(UrlOf(item), FileNameFor(NameOf(item)))
  }

  /** The downloads attempted for a list, one per item, in order. */
  function Attempts(items: seq<Record>): (r: seq<DownloadRequest>)
    ensures |r| == |items|
    ensures forall k :: 0 <= k < |r| ==> r[k] == DownloadFor(items[k])
  {
    seq(|items|, k requires 0 <= k < |items| => DownloadFor(items[k]))
  }

  /** Number of items whose download reported success. */
  function SuccessCount(items: seq<Record>, download: DownloadRequest -> bool): (n: nat)
    decreases |items|
    ensures n <= |items|
  {
    if items == [] then 0
    else SuccessCount(items[..|items| - 1], download) + (if download(DownloadFor(items[|items| - 1])) then 1 else 0)
  }

  lemma {:induction false} SuccessCountAppend(a: seq<Record>, b: seq<Record>, download: DownloadRequest -> bool)
    ensures SuccessCount(a + b, download) == SuccessCount(a, download) + SuccessCount(b, download)
    decreases |b|
  {
    if b == [] {
      assert a + b == a;
    } else {
      var n := |b| - 1;
      assert (a + b)[..|a + b| - 1] == a + b[..n];
      SuccessCountAppend(a, b[..n], download);
    }
  }

  /** The count is the list length exactly when every download succeeded. */
  lemma {:induction false} SuccessCountAll(items: seq<Record>, download: DownloadRequest -> bool)
    ensures SuccessCount(items, download) == |items|
        <==> forall k :: 0 <= k < |items| ==> download(DownloadFor(items[k]))
    decreases |items|
  {
    if items != [] {
      var n := |items| - 1;
      SuccessCountAll(items[..n], download);
      assert forall k :: 0 <= k < n ==> items[..n][k] == items[k];
    }
  }

  /** The count is zero exactly when every download failed. */
  lemma {:induction false} SuccessCountNone(items: seq<Record>, download: DownloadRequest -> bool)
    ensures SuccessCount(items, download) == 0
        <==> forall k :: 0 <= k < |items| ==> !download(DownloadFor(items[k]))
    decreases |items|
  {
    if items != [] {
      var n := |items| - 1;
      SuccessCountNone(items[..n], download);
      assert forall k :: 0 <= k < n ==> items[..n][k] == items[k];
    }
  }

  /** `download_images(image_data)`: returns the `success_count` that the
      summary line reports and the downloads attempted, in order. An empty
      list returns before any download. */
  method DownloadImages(imageData: seq<Record>, download: DownloadRequest -> bool)
    returns (successCount: nat, attempted: seq<DownloadRequest>)
    ensures attempted == Attempts(imageData)
    ensures successCount == SuccessCount(imageData, download)
    ensures successCount <= |imageData|
    ensures imageData == [] ==> attempted == [] && successCount == 0
  {
    if |imageData| == 0 {
      return 0, [];
    }
    successCount, attempted := 0, [];
    var i := 0;
    assert imageData[..i] == [];
    while i < |imageData|
      invariant 0 <= i <= |imageData|
      invariant attempted == Attempts(imageData[..i])
      invariant successCount == SuccessCount(imageData[..i], download)
    {
      var item := imageData[i];
      var name, url := NameOf(item), UrlOf(item);
      var safeName := SanitizeName(name);
      var fileName := safeName + ImageExtension;
      var request := DownloadRequest(url, fileName);
      attempted := attempted + [request];
      if download(request) {
        successCount := successCount + 1;
      }
      assert imageData[..i + 1][..i] == imageData[..i];
      i := i + 1;
    }
    assert imageData[..i] == imageData;
  }

  /** The JSON settings file as `load_config` finds it. */
  datatype ConfigFile = Missing | Malformed | Parsed(fields: map<string, string>)

  function Lookup(fields: map<string, string>, key: string, default: string): string {
    if key in fields then fields[key] else default
  }

  /** The settings a `FigmaImageExporter` holds. */
  class Settings {
    var figmaToken: Option<string>
    var urlsFile: string
    var outputFile: string
    var assetsDir: string

    /** `__init__` followed by `load_config` (creating the assets directory is left out). */
    constructor (token: Option<string>, urlsFile: string, outputFile: string, assetsDir: string, config: ConfigFile)
      ensures config.Parsed? ==>
        && figmaToken == (if Truthy(token) then token else Some(Lookup(config.fields, "figma_token", "")))
        && this.urlsFile == Lookup(config.fields, "urls_file", urlsFile)
        && this.outputFile == Lookup(config.fields, "output_file", outputFile)
        && this.assetsDir == Lookup(config.fields, "assets_dir", assetsDir)
      ensures !config.Parsed? ==>
        figmaToken == token && this.urlsFile == urlsFile && this.outputFile == outputFile && this.assetsDir == assetsDir
    {
      figmaToken := token;
      this.urlsFile := urlsFile;
      this.outputFile := outputFile;
      this.assetsDir := assetsDir;
      new;
      LoadConfig(config);
    }

    /** `load_config`: a token already set is kept; every other setting takes
        the file's value when the key is present. A missing or malformed file
        changes nothing. */
    method LoadConfig(config: ConfigFile)
      modifies this
      ensures config.Parsed? ==>
        && figmaToken == (if Truthy(old(figmaToken)) then old(figmaToken) else Some(Lookup(config.fields, "figma_token", "")))
        && urlsFile == Lookup(config.fields, "urls_file", old(urlsFile))
        && outputFile == Lookup(config.fields, "output_file", old(outputFile))
        && assetsDir == Lookup(config.fields, "assets_dir", old(assetsDir))
      ensures !config.Parsed? ==>
        figmaToken == old(figmaToken) && urlsFile == old(urlsFile)
        && outputFile == old(outputFile) && assetsDir == old(assetsDir)
    {
      if config.Parsed? {
        var fields := config.fields;
        if !Truthy(figmaToken) {
          figmaToken := Some(Lookup(fields, "figma_token", ""));
        }
        urlsFile := Lookup(fields, "urls_file", urlsFile);
        outputFile := Lookup(fields, "output_file", outputFile);
        assetsDir := Lookup(fields, "assets_dir", assetsDir);
      }
    }
  }
}
