/** main.py, the interactive one-shot script: its stricter `get_image_url`,
    the frame listing of `get_file_info`, the yes/no rule that decides which
    node id is rendered, and the flow of `main` that ties them together. The
    URL extractor is the one in FigmaUrl (main.py defines the same two
    patterns). Console input is a parameter, HTTP answers are oracles. */
module ManualScript {
  import opened Common
  import opened FigmaUrl
  import opened ImageApi
  import Exporter

  /** Frames listed per page before the listing is cut short. */
  const FrameListLimit: nat := 10
  const FrameType: string := "FRAME"

  /** main.py's `get_image_url`: like the exporter's, except that an empty or
      `null` URL under the matching key also yields `None`. */
  function GetImageUrl(fileId: string, nodeId: string, token: Option<string>,
                       fetch: ImageRequest -> Response): (r: Option<string>)
    ensures r.Some? ==> r.value != ""
    ensures r.Some? <==> (var e := ImageEntry(fetch(BuildRequest(fileId, nodeId, token)), nodeId);
                          e.Some? && Truthy(e.value))
    ensures r.Some? ==> Some(r) == ImageEntry(fetch(BuildRequest(fileId, nodeId, token)), nodeId)
  {
    match ImageEntry(fetch(BuildRequest(fileId, nodeId, token)), nodeId)
    case Some(Some(u)) => if u != "" then Some(u) else None
    case _ => None
  }

  /** The two resolvers differ only in the URLs they let through: main.py
      answers `u` exactly when figma_tui.py answers `u` and `u` is not empty. */
  lemma StricterThanExporter(fileId: string, nodeId: string, token: Option<string>,
                             fetch: ImageRequest -> Response)
    ensures var strict, raw := GetImageUrl(fileId, nodeId, token, fetch),
                               Exporter.GetImageUrl(fileId, nodeId, token, fetch);
      && (strict.Some? <==> Truthy(raw))
      && (strict.Some? ==> strict == raw)
  {
  }

  /** A node of the file tree: `id`, `name` and `type` of a child of a page. */
  datatype Node = Node(id: string, name: string, nodeType: string)

  /** A page of `document.children`; `children` is `None` when the key is absent. */
  datatype Page = Page(id: string, name: string, children: Option<seq<Node>>)

  /** What `get_file_info` obtains: any failure (non-200 status, request
      error, timeout, undecodable body) or the pages of the document. */
  datatype FileResponse = FileFailed | FileData(fileName: string, pages: seq<Page>)

  function FrameOf(n: Node): Option<Node> {
    if n.nodeType == FrameType then Some(n) else None
  }

  /** `[c for c in children if c["type"] == "FRAME"]`. */
  function Frames(children: seq<Node>): (r: seq<Node>)
    ensures |r| <= |children|
    ensures forall k :: 0 <= k < |r| ==> r[k].nodeType == FrameType
  {
    FilterMapIsOrderedFilter(children, FrameOf);
    FilterMap(children, FrameOf)
  }

  /** The frames are exactly the children of type `FRAME`, in their order:
      the k-th frame is the child at the k-th such position, and a child is
      kept exactly when it is a frame. */
  lemma FramesInOrder(children: seq<Node>)
    ensures var r, idx := Frames(children), KeptIndices(children, FrameOf);
      && |r| == |idx|
      && (forall k :: 0 <= k < |idx| ==> idx[k] < |children| && r[k] == children[idx[k]])
      && (forall k, l :: 0 <= k < l < |idx| ==> idx[k] < idx[l])
      && (forall i :: 0 <= i < |children| ==> (children[i].nodeType == FrameType <==> i in idx))
  {
    FilterMapIsOrderedFilter(children, FrameOf);
  }

  /** The frames printed for a page: the first ten frames, in order. */
  function ListedFrames(page: Page): (r: seq<Node>)
    ensures page.children.None? ==> r == []
    ensures page.children.Some? ==> r <= Frames(page.children.value)
    ensures |r| <= FrameListLimit
    ensures page.children.Some? && |Frames(page.children.value)| <= FrameListLimit ==>
              r == Frames(page.children.value)
    ensures page.children.Some? && |Frames(page.children.value)| > FrameListLimit ==>
              |r| == FrameListLimit
  {
    match page.children
    case None => []
    case Some(children) =>
      var frames := Frames(children);
      if |frames| <= FrameListLimit then frames else frames[..FrameListLimit]
  }

  /** The "N more frames" notice: present only when more than ten
      frames exist, and it counts the frames left unprinted. */
  function RemainingNotice(page: Page): (r: Option<int>)
    ensures r.Some? <==> page.children.Some? && |Frames(page.children.value)| > FrameListLimit
    ensures r.Some? ==> r.value > 0
    ensures r.Some? ==> r.value + |ListedFrames(page)| == |Frames(page.children.value)|
  {
    match page.children
    case None => None
    case Some(children) =>
      var total := |Frames(children)|;
      if total > FrameListLimit then Some(total - FrameListLimit) else None
  }

  /** The frames of a list are those of its first `n` children followed by
      those of the rest. */
  lemma FramesSplit(children: seq<Node>, n: nat)
    requires n <= |children|
    ensures Frames(children) == Frames(children[..n]) + Frames(children[n..])
  {
    FilterMapAppend(children[..n], children[n..], FrameOf);
    assert children[..n] + children[n..] == children;
  }

  /** Once the tenth frame is met after `n` children, those ten are the
      frames listed and the notice counts the frames after them. */
  lemma ListedAtTenth(page: Page, n: nat)
    requires page.children.Some? && n <= |page.children.value|
    requires |Frames(page.children.value[..n])| == FrameListLimit
    ensures ListedFrames(page) == Frames(page.children.value[..n])
    ensures RemainingNotice(page) ==
      (var more := |Frames(page.children.value)| - FrameListLimit; if more > 0 then Some(more) else None)
  {
    var children := page.children.value;
    FramesSplit(children, n);
    assert Frames(children)[..FrameListLimit] == Frames(children[..n]);
  }

  /** The inner loop of `get_file_info` for one page: walks the children,
      counts frames and stops at the tenth, then reports how many remain. */
  method ListFrames(page: Page) returns (listed: seq<Node>, notice: Option<int>)
    ensures listed == ListedFrames(page)
    ensures notice == RemainingNotice(page)
  {
    listed, notice := [], None;
    if page.children.None? {
      return;
    }
    var children := page.children.value;
    var frameCount := 0;
    var i := 0;
    assert children[..i] == [];
    while i < |children|
      invariant 0 <= i <= |children|
      invariant listed == Frames(children[..i])
      invariant frameCount == |listed| < FrameListLimit
      invariant notice.None?
    {
      var child := children[i];
      assert children[..i + 1][..i] == children[..i];
      if child.nodeType == FrameType {
        listed := listed + [child];
        frameCount := frameCount + 1;
        if frameCount >= FrameListLimit {
          ListedAtTenth(page, i + 1);
          var remaining := |Frames(children)| - frameCount;
          if remaining > 0 {
            notice := Some(remaining);
          }
          return;
        }
      }
      i := i + 1;
    }
    assert children[..i] == children;
  }

  /** `get_file_info(file_id)`: the file's pages (or `None` on failure) and,
      per page, the frames it prints and the notice it prints. */
  method GetFileInfo(resp: FileResponse) returns (data: Option<seq<Page>>, listings: seq<(seq<Node>, Option<int>)>)
    ensures resp.FileFailed? ==> data.None? && listings == []
    ensures resp.FileData? ==> data == Some(resp.pages) && |listings| == |resp.pages|
    ensures resp.FileData? ==> forall k :: 0 <= k < |listings| ==>
              listings[k] == (ListedFrames(resp.pages[k]), RemainingNotice(resp.pages[k]))
  {
    if resp.FileFailed? {
      return None, [];
    }
    listings := [];
    var i := 0;
    while i < |resp.pages|
      invariant 0 <= i <= |resp.pages|
      invariant |listings| == i
      invariant forall k :: 0 <= k < i ==>
                  listings[k] == (ListedFrames(resp.pages[k]), RemainingNotice(resp.pages[k]))
    {
      var listed, notice := ListFrames(resp.pages[i]);
      listings := listings + [(listed, notice)];
      i := i + 1;
    }
    data := Some(resp.pages);
  }

  /** The characters `str.isspace` accepts, which `str.strip()` removes. */
  predicate IsSpace(c: char) {
    || ('\t' <= c <= '\r') || ('\U{1c}' <= c <= '\U{1f}') || c == ' '
    || c == '\U{85}' || c == '\U{a0}' || c == '\U{1680}' || ('\U{2000}' <= c <= '\U{200a}')
    || c == '\U{2028}' || c == '\U{2029}' || c == '\U{202f}' || c == '\U{205f}' || c == '\U{3000}'
  }

  function LowerChar(c: char): char {
    if 'A' <= c <= 'Z' then (c as int + 32) as char else c
  }

  /** `str.lower()` on ASCII letters; every other character is kept. */
  function Lower(s: string): (r: string)
    ensures |r| == |s|
    ensures forall i :: 0 <= i < |s| ==> !('A' <= r[i] <= 'Z')
    ensures forall i :: 0 <= i < |s| && !('A' <= s[i] <= 'Z') ==> r[i] == s[i]
    ensures forall i :: 0 <= i < |s| && 'A' <= s[i] <= 'Z' ==> r[i] as int == s[i] as int + 32
  {
    seq(|s|, i requires 0 <= i < |s| => LowerChar(s[i]))
  }

  /** Number of leading whitespace characters. */
  function LeadingSpace(s: string): (n: nat)
    decreases |s|
    ensures n <= |s|
    ensures forall k :: 0 <= k < n ==> IsSpace(s[k])
    ensures n < |s| ==> !IsSpace(s[n])
  {
    if s != [] && IsSpace(s[0]) then 1 + LeadingSpace(s[1..]) else 0
  }

  /** Number of trailing whitespace characters. */
  function TrailingSpace(s: string): (n: nat)
    decreases |s|
    ensures n <= |s|
    ensures forall k :: |s| - n <= k < |s| ==> IsSpace(s[k])
    ensures n < |s| ==> !IsSpace(s[|s| - n - 1])
  {
    if s != [] && IsSpace(s[|s| - 1]) then 1 + TrailingSpace(s[..|s| - 1]) else 0
  }

  /** Only whitespace lies before `i` and from `j` on. */
  predicate SpaceOutside(s: string, i: nat, j: nat) {
    && i <= j <= |s|
    && (forall k :: 0 <= k < i ==> IsSpace(s[k]))
    && (forall k :: j <= k < |s| ==> IsSpace(s[k]))
  }

  /** Where `str.strip()` cuts: after the leading and before the trailing whitespace. */
  function StripBounds(s: string): (b: (nat, nat))
    ensures SpaceOutside(s, b.0, b.1)
    ensures b.0 < b.1 ==> !IsSpace(s[b.0]) && !IsSpace(s[b.1 - 1])
    ensures b.0 == b.1 ==> forall k :: 0 <= k < |s| ==> IsSpace(s[k])
  {
    var i := LeadingSpace(s);
    if i == |s| then (i, i) else (i, |s| - TrailingSpace(s))
  }

  /** `str.strip()`: the slice left once the whitespace at both ends is cut;
      it is empty exactly when the string is all whitespace. */
  function Strip(s: string): (r: string)
    ensures exists i: nat, j: nat :: SpaceOutside(s, i, j) && r == s[i..j]
    ensures r != [] ==> !IsSpace(r[0]) && !IsSpace(r[|r| - 1])
    ensures r == [] <==> forall k :: 0 <= k < |s| ==> IsSpace(s[k])
  {
    var b := StripBounds(s);
    s[b.0..b.1]
  }

  /** `use_url_node in ["y", "yes", ""]` after `.lower().strip()`. */
  predicate AcceptsUrlNodeId(answer: string) {
    var a := Strip(Lower(answer));
    a == "y" || a == "yes" || a == ""
  }

  /** Stripping removes exactly the surrounding whitespace of a word that
      neither starts nor ends with whitespace. */
  lemma StripPadded(pre: string, w: string, post: string)
    requires forall k :: 0 <= k < |pre| ==> IsSpace(pre[k])
    requires forall k :: 0 <= k < |post| ==> IsSpace(post[k])
    requires w != [] && !IsSpace(w[0]) && !IsSpace(w[|w| - 1])
    ensures Strip(pre + w + post) == w
  {
    var s := pre + w + post;
    var b := StripBounds(s);
    var i, j, m := b.0, b.1, |pre| + |w|;
    assert forall k :: 0 <= k < |pre| ==> s[k] == pre[k];
    assert forall k :: m <= k < |s| ==> s[k] == post[k - m];
    assert !IsSpace(s[|pre|]) && !IsSpace(s[m - 1]);
    assert i <= |pre| && m <= j;
    assert i == |pre| && j == m;
    assert s[i..j] == w;
  }

  /** Lowering works character by character, so it distributes over `+`. */
  lemma LowerAppend(a: string, b: string)
    ensures Lower(a + b) == Lower(a) + Lower(b)
  {
    assert forall k :: 0 <= k < |a| ==> (a + b)[k] == a[k];
    assert forall k :: |a| <= k < |a + b| ==> (a + b)[k] == b[k - |a|];
  }

  /** Whitespace is not a letter, so lowering leaves it alone. */
  lemma LowerKeepsSpace(s: string)
    requires forall k :: 0 <= k < |s| ==> IsSpace(s[k])
    ensures Lower(s) == s
  {
  }

  /** The answer as compared: `Lower` maps the padding to itself and the word to its lower case. */
  lemma LowerPadded(pre: string, w: string, post: string)
    requires forall k :: 0 <= k < |pre| ==> IsSpace(pre[k])
    requires forall k :: 0 <= k < |post| ==> IsSpace(post[k])
    ensures Lower(pre + w + post) == pre + Lower(w) + post
  {
    LowerAppend(pre + w, post);
    LowerAppend(pre, w);
    LowerKeepsSpace(pre);
    LowerKeepsSpace(post);
  }

  /** Any capitalisation of `y` or `yes`, with any whitespace around it, and
      an answer made only of whitespace, all accept the URL's node id. */
  lemma AcceptsPaddedYes(pre: string, w: string, post: string)
    requires forall k :: 0 <= k < |pre| ==> IsSpace(pre[k])
    requires forall k :: 0 <= k < |post| ==> IsSpace(post[k])
    requires Lower(w) == "y" || Lower(w) == "yes" || w == ""
    ensures AcceptsUrlNodeId(pre + w + post)
  {
    LowerPadded(pre, w, post);
    var lw := Lower(w);
    if w == "" {
      var t := pre + lw + post;
      assert forall k :: 0 <= k < |t| ==> IsSpace(t[k]);
    } else {
      assert lw[0] == 'y';
      assert !IsSpace(lw[|lw| - 1]);
      StripPadded(pre, lw, post);
    }
  }

  /** Any other word, with any whitespace around it, makes the script ask
      for a node id instead. */
  lemma RejectsPaddedOther(pre: string, w: string, post: string)
    requires forall k :: 0 <= k < |pre| ==> IsSpace(pre[k])
    requires forall k :: 0 <= k < |post| ==> IsSpace(post[k])
    requires w != [] && !IsSpace(w[0]) && !IsSpace(w[|w| - 1])
    requires Lower(w) != "y" && Lower(w) != "yes"
    ensures !AcceptsUrlNodeId(pre + w + post)
  {
    LowerPadded(pre, w, post);
    var lw := Lower(w);
    assert !IsSpace(lw[0]) && !IsSpace(lw[|lw| - 1]);
    StripPadded(pre, lw, post);
  }

  /** Lowering works character by character, so it commutes with slicing. */
  lemma LowerSlice(s: string, i: nat, j: nat)
    requires i <= j <= |s|
    ensures Lower(s[i..j]) == Lower(s)[i..j]
  {
    assert forall k :: 0 <= k < j - i ==> Lower(s[i..j])[k] == LowerChar(s[i + k]) == Lower(s)[i..j][k];
  }

  /** Lowering never turns a character into whitespace or whitespace into
      something else. */
  lemma LowerCharSpace(c: char)
    ensures IsSpace(LowerChar(c)) == IsSpace(c)
  {
  }

  /** Conversely, an accepted answer is whitespace around nothing, or around
      some capitalisation of `y` or `yes`. */
  lemma AcceptedAnswerShape(answer: string)
    requires AcceptsUrlNodeId(answer)
    ensures exists i: nat, j: nat :: SpaceOutside(answer, i, j)
              && (var w := Lower(answer[i..j]); w == "y" || w == "yes" || w == "")
  {
    var t := Lower(answer);
    var b := StripBounds(t);
    var i, j := b.0, b.1;
    forall k | 0 <= k < |answer|
      ensures IsSpace(t[k]) == IsSpace(answer[k])
    {
      LowerCharSpace(answer[k]);
    }
    assert SpaceOutside(answer, i, j);
    LowerSlice(answer, i, j);
  }

  /** The node id `main` renders: the URL's when it has one and the answer
      accepts it, otherwise the id typed at the second prompt. */
  function ChooseNodeId(urlNodeId: Option<string>, answer: string, typed: string): (r: string)
    ensures Truthy(urlNodeId) && AcceptsUrlNodeId(answer) ==> r == urlNodeId.value
    ensures !(Truthy(urlNodeId) && AcceptsUrlNodeId(answer)) ==> r == typed
    ensures r == "" <==> typed == "" && !(Truthy(urlNodeId) && AcceptsUrlNodeId(answer))
  {
    if Truthy(urlNodeId) then
      if AcceptsUrlNodeId(answer) then urlNodeId.value else typed
    else typed
  }

  /** How a run of `main` ends. */
  datatype RunResult =
    | NoToken        // FIGMA_TOKEN unset or empty: exit(1)
    | InvalidUrl     // no file id in the URL
    | NoFileInfo     // get_file_info returned None
    | NoNodeId       // the chosen node id is empty
    | NoImage        // get_image_url returned None
    | Rendered(imageUrl: string)

  /** `main()` with its three console answers (`answer` is read only when
      the URL has a node id, `typed` only when that id is not used). */
  function Run(token: Option<string>, url: string, fileResp: FileResponse, answer: string, typed: string,
               fetch: ImageRequest -> Response): (r: RunResult)
    ensures !Truthy(token) <==> r == NoToken
    ensures Truthy(token) ==> (r == InvalidUrl <==> Extract(url).fileId.None?)
    ensures r.Rendered? ==>
      var ref := Extract(url);
      var nodeId := ChooseNodeId(ref.nodeId, answer, typed);
      && ref.fileId.Some? && fileResp.FileData? && nodeId != ""
      && Some(r.imageUrl) == GetImageUrl(ref.fileId.value, nodeId, token, fetch)
      && r.imageUrl != ""
    ensures r.Rendered? && Extract(url).nodeId.Some? && AcceptsUrlNodeId(answer) ==>
      Some(r.imageUrl) == GetImageUrl(Extract(url).fileId.value, Extract(url).nodeId.value, token, fetch)
    ensures r.Rendered? && (Extract(url).nodeId.None? || !AcceptsUrlNodeId(answer)) ==>
      Some(r.imageUrl) == GetImageUrl(Extract(url).fileId.value, typed, token, fetch)
    ensures r == NoNodeId ==> typed == "" && (Extract(url).nodeId.None? || !AcceptsUrlNodeId(answer))
    ensures Truthy(token) && Extract(url).fileId.Some? ==> (r == NoFileInfo <==> fileResp.FileFailed?)
    ensures Truthy(token) && Extract(url).fileId.Some? && fileResp.FileData? ==>
      var nodeId := ChooseNodeId(Extract(url).nodeId, answer, typed);
      var image := GetImageUrl(Extract(url).fileId.value, nodeId, token, fetch);
      && (r == NoNodeId <==> nodeId == "")
      && (nodeId != "" ==> (r == NoImage <==> image.None?))
      && (nodeId != "" && image.Some? ==> r == Rendered(image.value))
  {
    if !Truthy(token) then NoToken
    else
      var ref := Extract(url);
      if !Truthy(ref.fileId) then InvalidUrl
      else if fileResp.FileFailed? then NoFileInfo
      else
        var nodeId := ChooseNodeId(ref.nodeId, answer, typed);
        if nodeId == "" then NoNodeId
        else
          match GetImageUrl(ref.fileId.value, nodeId, token, fetch)
          case None => NoImage
          case Some(u) => Rendered(u)
  }
}
