/** `extract_file_id_from_url`, which both scripts define with the same two
    patterns: `figma\.com/(?:file|design)/([a-zA-Z0-9]{22})` for the file id and
    `node-id=([^&]+)` for the node id, each found with `re.search` (the
    leftmost position where the pattern matches). The regular expressions are
    modelled as direct searches over the characters of the URL. */
module FigmaUrl {
  import opened Common

  const FileMarker: string := "figma.com/file/"
  const DesignMarker: string := "figma.com/design/"
  const NodeMarker: string := "node-id="
  /** Length of a Figma file id. */
  const FileIdLength: nat := 22

  /** The pair the extractor returns; a field is `None` when its pattern does not match. */
  datatype FigmaReference = FigmaReference(fileId: Option<string>, nodeId: Option<string>)

  /** `n` ASCII letters or digits start at index `from` of `s`. */
  predicate AlnumRun(s: string, from: nat, n: nat) {
    from + n <= |s| && forall k :: from <= k < from + n ==> IsAsciiAlnum(s[k])
  }

  /** The file pattern matches at index `i`: one of the two markers, then 22
      alphanumerics. Nothing is required of what follows them. */
  predicate FileMatchAt(s: string, i: nat) {
    || (HasAt(s, i, FileMarker) && AlnumRun(s, i + |FileMarker|, FileIdLength))
    || (HasAt(s, i, DesignMarker) && AlnumRun(s, i + |DesignMarker|, FileIdLength))
  }

  /** `i` is where `re.search` reports the file pattern: it matches there and nowhere before. */
  predicate LeftmostFileMatch(s: string, i: nat) {
    FileMatchAt(s, i) && forall j :: 0 <= j < i ==> !FileMatchAt(s, j)
  }

  /** The capture group of a file-pattern match at `i`. */
  function FileIdAt(s: string, i: nat): (id: string)
    requires FileMatchAt(s, i)
    ensures |id| == FileIdLength
    ensures forall k :: 0 <= k < |id| ==> IsAsciiAlnum(id[k])
  {
    assert HasAt(s, i, FileMarker) ==> s[i + 10] == 'f';
    assert HasAt(s, i, DesignMarker) ==> s[i + 10] == 'd';
    var start := if HasAt(s, i, FileMarker) then i + |FileMarker| else i + |DesignMarker|;
    var id := s[start..start + FileIdLength];
    assert forall k :: 0 <= k < |id| ==> id[k] == s[start + k];
    id
  }

  /** Scans for the first file-pattern match at or after `from`. */
  function FindFileMatch(s: string, from: nat): (r: Option<nat>)
    decreases |s| - from
    ensures r.Some? ==> from <= r.value < |s| && FileMatchAt(s, r.value)
    ensures forall j :: from <= j < (if r.Some? then r.value else |s|) ==> !FileMatchAt(s, j)
  {
    if from >= |s| then None
    else if FileMatchAt(s, from) then Some(from)
    else FindFileMatch(s, from + 1)
  }

  /** The `file_id` half of `extract_file_id_from_url`. */
  function FileIdOf(url: string): (r: Option<string>)
    ensures r.None? <==> forall i :: 0 <= i < |url| ==> !FileMatchAt(url, i)
    ensures r.Some? ==> exists i :: LeftmostFileMatch(url, i) && r.value == FileIdAt(url, i)
    ensures r.Some? ==> |r.value| == FileIdLength
  {
    match FindFileMatch(url, 0)
    case None => None
    case Some(i) =>
      assert LeftmostFileMatch(url, i);
      Some(FileIdAt(url, i))
  }

  /** The node pattern matches at index `i`: the marker followed by at least
      one character other than `&`. */
  predicate NodeMatchAt(s: string, i: nat) {
    HasAt(s, i, NodeMarker) && i + |NodeMarker| < |s| && s[i + |NodeMarker|] != '&'
  }

  predicate LeftmostNodeMatch(s: string, i: nat) {
    NodeMatchAt(s, i) && forall j :: 0 <= j < i ==> !NodeMatchAt(s, j)
  }

  /** End of the run of non-`&` characters that starts at `k`: the greedy `[^&]+`. */
  function RunEnd(s: string, k: nat): (e: nat)
    requires k <= |s|
    decreases |s| - k
    ensures k <= e <= |s|
    ensures forall m :: k <= m < e ==> s[m] != '&'
    ensures e == |s| || s[e] == '&'
  {
    if k == |s| || s[k] == '&' then k else RunEnd(s, k + 1)
  }

  /** The capture group of a node-pattern match at `i`. */
  function NodeIdAt(s: string, i: nat): (id: string)
    requires NodeMatchAt(s, i)
    ensures id != []
    ensures '&' !in id
  {
    var start := i + |NodeMarker|;
    var id := s[start..RunEnd(s, start)];
    assert forall k :: 0 <= k < |id| ==> id[k] == s[start + k];
    id
  }

  /** Scans for the first node-pattern match at or after `from`. */
  function FindNodeMatch(s: string, from: nat): (r: Option<nat>)
    decreases |s| - from
    ensures r.Some? ==> from <= r.value < |s| && NodeMatchAt(s, r.value)
    ensures forall j :: from <= j < (if r.Some? then r.value else |s|) ==> !NodeMatchAt(s, j)
  {
    if from >= |s| then None
    else if NodeMatchAt(s, from) then Some(from)
    else FindNodeMatch(s, from + 1)
  }

  /** The `node_id` half of `extract_file_id_from_url`. */
  function NodeIdOf(url: string): (r: Option<string>)
    ensures r.None? <==> forall i :: 0 <= i < |url| ==> !NodeMatchAt(url, i)
    ensures r.Some? ==> exists i :: LeftmostNodeMatch(url, i) && r.value == NodeIdAt(url, i)
    ensures r.Some? ==> r.value != [] && '&' !in r.value
  {
    match FindNodeMatch(url, 0)
    case None => None
    case Some(i) =>
      assert LeftmostNodeMatch(url, i);
      Some(NodeIdAt(url, i))
  }

  /** `extract_file_id_from_url(url)`: the two searches are independent. */
  function Extract(url: string): (r: FigmaReference)
    ensures r.fileId.Some? ==> |r.fileId.value| == FileIdLength
    ensures r.fileId.Some? ==> forall k :: 0 <= k < FileIdLength ==> IsAsciiAlnum(r.fileId.value[k])
    ensures r.nodeId.Some? ==> r.nodeId.value != [] && '&' !in r.nodeId.value
    ensures r.fileId.None? <==> forall i :: 0 <= i < |url| ==> !FileMatchAt(url, i)
    ensures r.nodeId.None? <==> forall i :: 0 <= i < |url| ==> !NodeMatchAt(url, i)
  {
    FigmaReference(FileIdOf(url), NodeIdOf(url))
  }

  /** Both markers begin with `f`, so no file match starts at a position
      holding another character. */
  lemma NoFileMatchBefore(s: string, n: nat)
    requires n <= |s|
    requires forall j :: 0 <= j < n ==> s[j] != 'f'
    ensures forall j :: 0 <= j < n ==> !FileMatchAt(s, j)
  {
    forall j | 0 <= j < n
      ensures !HasAt(s, j, FileMarker) && !HasAt(s, j, DesignMarker)
    {
      if j + |FileMarker| <= |s| {
        assert s[j..j + |FileMarker|][0] == s[j];
      }
      if j + |DesignMarker| <= |s| {
        assert s[j..j + |DesignMarker|][0] == s[j];
      }
    }
  }

  /** `re.search` reports the leftmost match, so the file id is the capture there. */
  lemma FileIdOfLeftmost(s: string, i: nat)
    requires LeftmostFileMatch(s, i)
    ensures FileIdOf(s) == Some(FileIdAt(s, i))
  {
    var r := FindFileMatch(s, 0);
    assert r.Some? && r.value == i;
  }

  /** The two markers differ at their eleventh character, so at most one of
      them occurs at a given position. */
  lemma MarkersExclusive(s: string, i: nat)
    requires HasAt(s, i, DesignMarker)
    ensures !HasAt(s, i, FileMarker)
  {
    assert s[i + 10] == s[i..i + |DesignMarker|][10] == 'd';
    if i + |FileMarker| <= |s| {
      assert s[i..i + |FileMarker|][10] == s[i + 10];
    }
  }

  /** A file id is the 22 characters right after the first marker that is
      followed by 22 alphanumerics; whatever follows them (more
      alphanumerics, a path, a query) is ignored, because the pattern is not
      anchored at the end. */
  lemma FileIdAfterMarker(s: string, i: nat, marker: string)
    requires marker == FileMarker || marker == DesignMarker
    requires HasAt(s, i, marker) && AlnumRun(s, i + |marker|, FileIdLength)
    requires forall j :: 0 <= j < i ==> !FileMatchAt(s, j)
    ensures FileIdOf(s) == Some(s[i + |marker|..i + |marker| + FileIdLength])
  {
    assert LeftmostFileMatch(s, i);
    if marker == DesignMarker {
      MarkersExclusive(s, i);
    }
    FileIdOfLeftmost(s, i);
  }

  /** The same for a URL assembled from a prefix, a marker, an id and a
      tail, when no match starts inside the prefix. */
  lemma FileIdAfterPrefix(p: string, marker: string, id: string, rest: string)
    requires marker == FileMarker || marker == DesignMarker
    requires |id| == FileIdLength && forall k :: 0 <= k < |id| ==> IsAsciiAlnum(id[k])
    requires forall j :: 0 <= j < |p| ==> !FileMatchAt(p + marker + id + rest, j)
    ensures FileIdOf(p + marker + id + rest) == Some(id)
  {
    var s := p + (marker + (id + rest));
    assert s == p + marker + id + rest;
    var i, start := |p|, |p| + |marker|;
    assert s[i..start] == marker;
    assert s[start..start + FileIdLength] == id;
    FileIdAfterMarker(s, i, marker);
  }

  /** A prefix without the letter `f` (such as `https://www.`) never holds a match. */
  lemma FileIdAfterPlainPrefix(p: string, marker: string, id: string, rest: string)
    requires marker == FileMarker || marker == DesignMarker
    requires |id| == FileIdLength && forall k :: 0 <= k < |id| ==> IsAsciiAlnum(id[k])
    requires 'f' !in p
    ensures FileIdOf(p + marker + id + rest) == Some(id)
  {
    var s := p + marker + id + rest;
    assert forall j :: 0 <= j < |p| ==> s[j] == p[j];
    NoFileMatchBefore(s, |p|);
    FileIdAfterPrefix(p, marker, id, rest);
  }

  /** The node id is taken verbatim (no percent-decoding, no `-` rewriting) up
      to the next `&` or the end of the URL, after the first `node-id=`.
      Other query parameters may come before it (`?t=x&node-id=1-2`). */
  lemma NodeIdAfterQuery(p: string, v: string, rest: string)
    requires forall j :: 0 <= j < |p| ==> !HasAt(p, j, NodeMarker)
    requires v != [] && '&' !in v
    requires rest == [] || rest[0] == '&'
    ensures NodeIdOf(p + NodeMarker + v + rest) == Some(v)
  {
    var s := p + NodeMarker + v + rest;
    var i := |p|;
    var start := i + |NodeMarker|;
    assert s[i..i + |NodeMarker|] == NodeMarker;
    assert forall k :: 0 <= k < |v| ==> s[start + k] == v[k];
    assert NodeMatchAt(s, i);
    assert forall k :: 0 <= k < i ==> s[k] == p[k];
    forall j | 0 <= j < i
      ensures !NodeMatchAt(s, j)
    {
      if j + |NodeMarker| <= i {
        assert !HasAt(p, j, NodeMarker);
        assert s[j..j + |NodeMarker|] == p[j..j + |NodeMarker|];
      } else if j + |NodeMarker| <= |s| {
        // the marker has no `n` after its first character, so it cannot
        // overlap the marker that starts at `i`
        assert s[j..j + |NodeMarker|][i - j] == s[i] == 'n';
        assert NodeMarker[i - j] != 'n';
      }
    }
    assert LeftmostNodeMatch(s, i);
    assert start + |v| == |s| || s[start + |v|] == '&';
    assert RunEnd(s, start) == start + |v|;
    assert NodeIdAt(s, i) == v;
  }

  /** Every occurrence of the node marker ends in `=`. */
  lemma NoMarkerWithoutEquals(p: string)
    requires '=' !in p
    ensures forall j :: 0 <= j < |p| ==> !HasAt(p, j, NodeMarker)
  {
    forall j | 0 <= j < |p|
      ensures !HasAt(p, j, NodeMarker)
    {
      if j + |NodeMarker| <= |p| {
        assert p[j..j + |NodeMarker|][7] == p[j + 7];
      }
    }
  }

  lemma AppendAssoc(a: string, b: string, c: string)
    ensures a + b + c == a + (b + c)
  {
  }

  /** A design link as the browser shows it,
      `https://www.figma.com/design/<id>/<title>?node-id=<node><rest>`, gives
      back the file id and the node id it was built from, for any title
      without `=` and any further query parameters; the node id keeps its `-`. */
  lemma ExtractDesignLink(id: string, title: string, node: string, rest: string)
    requires |id| == FileIdLength && forall k :: 0 <= k < |id| ==> IsAsciiAlnum(id[k])
    requires '=' !in title
    requires node != [] && '&' !in node
    requires rest == [] || rest[0] == '&'
    ensures Extract("https://www." + DesignMarker + id + "/" + title + "?" + NodeMarker + node + rest)
         == FigmaReference(Some(id), Some(node))
  {
    var scheme := "https://www.";
    var head := scheme + DesignMarker + id;
    var page := head + "/" + title + "?";
    var url := page + NodeMarker + node + rest;
    var t1 := "/" + title;
    var t2 := t1 + "?";
    var t3 := t2 + NodeMarker;
    var t4 := t3 + node;
    var t5 := t4 + rest;
    AppendAssoc(head, "/", title);
    AppendAssoc(head, t1, "?");
    AppendAssoc(head, t2, NodeMarker);
    AppendAssoc(head, t3, node);
    AppendAssoc(head, t4, rest);
    assert url == head + t5;
    assert 'f' !in scheme;
    FileIdAfterPlainPrefix(scheme, DesignMarker, id, t5);
    assert '=' !in id by {
      assert forall k :: 0 <= k < |id| ==> id[k] != '=';
    }
    assert '=' !in scheme && '=' !in DesignMarker;
    assert '=' !in page;
    NoMarkerWithoutEquals(page);
    NodeIdAfterQuery(page, node, rest);
  }
}
