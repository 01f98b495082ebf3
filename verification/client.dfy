/** The metadata side of the v2 client: converting remote entries into host
    metadata, `getMetadata` with its optional thumbnail, thumbnail
    eligibility, and the paginated `readDirectory`. Every remote call is an
    input: the delivered answer of each call, in the order issued. */
module Client {
  import opened Common
  import opened Strings
  import Json

  /** The fields of a Dropbox metadata record the client reads. `size` and
      `serverModified` are absent for folders; the modification instant is
      already parsed to milliseconds. */
  datatype RemoteEntry = RemoteEntry(tag: string, name: string, size: Option<int>, serverModified: Option<int>)

  /** One `list_folder` or `list_folder/continue` answer. */
  datatype Page = Page(entries: seq<RemoteEntry>, hasMore: bool, cursor: string)

  /** The remote calls of this part of the client. */
  datatype Call =
    | GetMetadataCall(path: string)
    | ThumbnailCall(arg: string)
    | ListFolder(path: string)
    | ListFolderContinue(cursor: string)

  /** What one host request did: the calls in order and the reply (`None`:
      the last call is still unanswered). */
  datatype Fetched<T> = Fetched(calls: seq<Call>, reply: Option<Reply<T>>)

  // ---------------------------------------------------------------------
  // Entry conversion

  /** One remote record as host metadata: a directory exactly for the tag
      `folder`, the name copied, a missing size read as 0, and a missing
      modification instant replaced by `now`. */
  function ToEntryMetadata(e: RemoteEntry, now: int): (m: Metadata)
    ensures m.isDirectory <==> e.tag == "folder"
    ensures m.name == e.name
    ensures e.size.Some? ==> m.size == e.size.value
    ensures e.size.None? ==> m.size == 0
    ensures m.modificationTime == Date(if e.serverModified.Some? then e.serverModified.value else now)
    ensures m.mimeType.None? && m.thumbnail.None?
  {
    Metadata(
      e.tag == "folder",
      e.name,
      if e.size.Some? then e.size.value else 0,
      Date(if e.serverModified.Some? then e.serverModified.value else now),
      None,
      None)
  }

  /** `createEntryMetadatas`: the records converted one by one, in order. */
  function ConvertAll(es: seq<RemoteEntry>, now: int): (ms: seq<Metadata>)
    ensures |ms| == |es|
    ensures forall i :: 0 <= i < |es| ==> ms[i] == ToEntryMetadata(es[i], now)
  {
    if |es| == 0 then [] else [ToEntryMetadata(es[0], now)] + ConvertAll(es[1..], now)
  }

  /** Converting a concatenation converts each part. */
  lemma ConvertAppend(a: seq<RemoteEntry>, b: seq<RemoteEntry>, now: int)
    ensures ConvertAll(a + b, now) == ConvertAll(a, now) + ConvertAll(b, now)
  {
    var l, r := ConvertAll(a + b, now), ConvertAll(a, now) + ConvertAll(b, now);
    assert |l| == |r|;
    forall i | 0 <= i < |l| ensures l[i] == r[i] {
      if i < |a| {
        assert (a + b)[i] == a[i];
      } else {
        assert (a + b)[i] == b[i - |a|];
      }
    }
  }

  // ---------------------------------------------------------------------
  // Thumbnail eligibility

  /** The largest size (exclusive) for which a thumbnail is requested, 20 MiB. */
  const THUMBNAIL_SIZE_LIMIT: int := 20971520

  /** The extensions of the thumbnail pattern, in lower case. */
  const THUMBNAIL_EXTENSIONS: seq<string> := ["jpg", "jpeg", "png", "tiff", "tif", "gif", "bmp"]

  /** The characters a regular-expression `.` does not match (section 22.2.2.8
      of ECMA-262: the line terminators). */
  predicate IsLineTerminator(c: char)
  {
    c == '\n' || c == '\r' || c == '\U{2028}' || c == '\U{2029}'
  }

  /** What `/.\.(jpg|jpeg|png|tiff|tif|gif|bmp)$/i` accepts, position by
      position: some `.` that follows a character other than a line terminator
      and is followed, up to the end of the name, by one of the extensions in
      any ASCII case. */
  predicate ExtensionPatternMatches(name: string)
  {
    exists k :: 1 <= k < |name| && name[k] == '.' && !IsLineTerminator(name[k - 1])
      && IsThumbnailExtension(name[k + 1..])
  }

  /** One of the extensions, in any ASCII case. */
  predicate IsThumbnailExtension(ext: string)
  {
    LowerAsciiString(ext) in THUMBNAIL_EXTENSIONS
  }

  /** A direct reading of the same pattern: the extension is whatever follows
      the last `.`. */
  function HasThumbnailExtension(name: string): (b: bool)
  {
    var dot := LastIndexOf(name, '.');
    dot >= 1 && !IsLineTerminator(name[dot - 1]) && IsThumbnailExtension(name[dot + 1..])
  }

  /** No extension holds a `.`, in any case. */
  lemma ExtensionDotFree(ext: string)
    requires IsThumbnailExtension(ext)
    ensures '.' !in ext
  {
    var l := LowerAsciiString(ext);
    assert '.' !in l;
    forall k | 0 <= k < |ext| ensures ext[k] != '.' {
      assert l[k] == LowerAscii(ext[k]);
    }
  }

  /** A name the pattern accepts has its matching `.` as its last `.`. */
  lemma PatternMatchIsLastDot(name: string)
    requires ExtensionPatternMatches(name)
    ensures HasThumbnailExtension(name)
  {
    var k :| 1 <= k < |name| && name[k] == '.' && !IsLineTerminator(name[k - 1])
      && IsThumbnailExtension(name[k + 1..]);
    MatchAtIsLastDot(name, k);
  }

  /** The same, for the `.` at a given position. */
  lemma MatchAtIsLastDot(name: string, k: int)
    requires 1 <= k < |name| && name[k] == '.' && !IsLineTerminator(name[k - 1])
    requires IsThumbnailExtension(name[k + 1..])
    ensures HasThumbnailExtension(name)
  {
    ExtensionDotFree(name[k + 1..]);
    LastIndexOfAt(name, '.', k);
  }

  /** The last-dot reading accepts exactly the names the pattern accepts. */
  lemma ThumbnailExtensionIff(name: string)
    ensures HasThumbnailExtension(name) <==> ExtensionPatternMatches(name)
  {
    if ExtensionPatternMatches(name) {
      PatternMatchIsLastDot(name);
    }
    if HasThumbnailExtension(name) {
      var dot := LastIndexOf(name, '.');
      assert name[dot] == '.';
    }
  }

  /** `canFetchThumbnail`: a file, smaller than 20 MiB, whose name matches the
      image-extension pattern. A record without a size fails the comparison. */
  predicate CanFetchThumbnail(e: RemoteEntry)
  {
    e.tag == "file" && e.size.Some? && e.size.value < THUMBNAIL_SIZE_LIMIT
    && HasThumbnailExtension(e.name)
  }

  /** Eligibility, stated against the pattern itself. */
  lemma CanFetchThumbnailIff(e: RemoteEntry)
    ensures CanFetchThumbnail(e) <==>
      e.tag == "file" && e.size.Some? && e.size.value < THUMBNAIL_SIZE_LIMIT && ExtensionPatternMatches(e.name)
  {
    ThumbnailExtensionIff(e.name);
  }

  /** An upper-case extension qualifies; a bare extension with nothing before
      the dot does not; neither does a folder. */
  lemma ThumbnailExamples()
    ensures CanFetchThumbnail(RemoteEntry("file", "a.JPG", Some(10), None))
    ensures !CanFetchThumbnail(RemoteEntry("file", ".png", Some(10), None))
    ensures !CanFetchThumbnail(RemoteEntry("file", "a.png", Some(THUMBNAIL_SIZE_LIMIT), None))
    ensures !CanFetchThumbnail(RemoteEntry("folder", "a.png", None, None))
  {
    assert "a.JPG"[2..] == "JPG";
    assert LowerAsciiString("JPG") == "jpg";
    MatchAtIsLastDot("a.JPG", 1);
    assert LastIndexOf(".png", '.') == 0;
  }

  // ---------------------------------------------------------------------
  // getMetadata

  /** The argument of the thumbnail call: the path, JPEG, 128 by 128. */
  function ThumbnailFields(path: string): seq<Json.Field>
  {
    [Json.Field("path", Json.JString(path)),
     Json.Field("format", Json.JString("jpeg")),
     Json.Field("size", Json.JString("w128h128"))]
  }

  function ThumbnailArg(path: string): string
  {
    Json.Stringify(ThumbnailFields(path))
  }

  /** The thumbnail argument reads back as exactly the object it was built
      from, so the requested path arrives intact whatever characters it holds. */
  lemma ThumbnailArgDecodes(path: string)
    ensures Json.ParseObject(ThumbnailArg(path)) == Some((Json.JObject(ThumbnailFields(path)), ""))
  {
    var fs := ThumbnailFields(path);
    assert forall i :: 0 <= i < |fs| ==> '"' !in fs[i].key && Json.WellFormed(fs[i].value);
    Json.StringifyRoundTrip(fs);
  }

  /** The metadata of the root, answered without a call. */
  function RootMetadata(now: int): Metadata
  {
    Metadata(true, "", 0, Date(now), None, None)
  }

  /** `getMetadata(path)`. The root is answered locally. Otherwise one
      metadata call; an eligible file then takes a thumbnail call whose
      encoded image is attached, and whose failure fails the request. */
  function GetMetadata(path: string, now: int, meta: Reply<RemoteEntry>, thumb: Reply<string>): (r: Fetched<Metadata>)
    ensures path == "/" ==> r == Fetched([], Some(Ok(RootMetadata(now))))
    ensures path != "/" ==> |r.calls| >= 1 && r.calls[0] == GetMetadataCall(path) && r.reply.Some?
    ensures path != "/" && meta.Err? ==> r == Fetched([GetMetadataCall(path)], Some(Err(meta.code)))
    ensures path != "/" && meta.Ok? ==>
      (|r.calls| == 2 <==> CanFetchThumbnail(meta.value))
      && (|r.calls| == 2 ==> r.calls[1] == ThumbnailCall(ThumbnailArg(path)))
    ensures path != "/" && meta.Ok? && r.reply.value.Ok? ==>
      var m := ToEntryMetadata(meta.value, now);
      if CanFetchThumbnail(meta.value) then thumb.Ok? && r.reply.value.value == m.(thumbnail := Some(thumb.value))
      else r.reply.value.value == m
    ensures path != "/" && meta.Ok? && r.reply.value.Err? ==>
      CanFetchThumbnail(meta.value) && thumb.Err? && r.reply.value == Err(thumb.code)
  {
    if path == "/" then Fetched([], Some(Ok(RootMetadata(now))))
    else
      match meta
      case Err(code) => Fetched([GetMetadataCall(path)], Some(Err(code)))
      case Ok(e) =>
        var m := ToEntryMetadata(e, now);
        if CanFetchThumbnail(e) then
          var calls := [GetMetadataCall(path), ThumbnailCall(ThumbnailArg(path))];
          match thumb
          case Ok(image) => Fetched(calls, Some(Ok(m.(thumbnail := Some(image)))))
          case Err(code) => Fetched(calls, Some(Err(code)))
        else Fetched([GetMetadataCall(path)], Some(Ok(m)))
  }

  /** A folder never costs a thumbnail call, and its metadata is exactly the
      converted record. */
  lemma FolderMetadata(path: string, now: int, e: RemoteEntry, thumb: Reply<string>)
    requires path != "/" && e.tag == "folder"
    ensures GetMetadata(path, now, Ok(e), thumb) == Fetched([GetMetadataCall(path)], Some(Ok(ToEntryMetadata(e, now))))
    ensures ToEntryMetadata(e, now).isDirectory
  {
  }

  // ---------------------------------------------------------------------
  // readDirectory

  /** The path the listing call names: the root is listed as `""`. */
  function ListingPath(path: string): (p: string)
    ensures path == "/" ==> p == ""
    ensures path != "/" ==> p == path
  {
    if path == "/" then "" else path
  }

  /** `continueReadDirectory`, fed the answers to the calls issued so far
      (the first answer is for the call already made). Each page's entries
      are appended to `acc`; a page with more behind it issues one
      continuation call with its cursor. */
  function Follow(pages: seq<Reply<Page>>, acc: seq<Metadata>, now: int): (r: Fetched<seq<Metadata>>)
    ensures r.reply.None? ==> |r.calls| == |pages|
    ensures r.reply.Some? ==> |r.calls| < |pages|
    ensures forall i :: 0 <= i < |r.calls| ==>
      r.calls[i].ListFolderContinue? && pages[i].Ok? && pages[i].value.hasMore
      && r.calls[i].cursor == pages[i].value.cursor
    ensures r.reply.Some? && r.reply.value.Err? ==> pages[|r.calls|] == Err(r.reply.value.code)
    ensures r.reply.Some? && r.reply.value.Ok? ==>
      pages[|r.calls|].Ok? && !pages[|r.calls|].value.hasMore && acc <= r.reply.value.value
    decreases |pages|
  {
    if |pages| == 0 then Fetched([], None)
    else
      match pages[0]
      case Err(code) => Fetched([], Some(Err(code)))
      case Ok(page) =>
        var entries := acc + ConvertAll(page.entries, now);
        if page.hasMore then
          var rest := Follow(pages[1..], entries, now);
          Fetched([ListFolderContinue(page.cursor)] + rest.calls, rest.reply)
        else Fetched([], Some(Ok(entries)))
  }

  /** `readDirectory(path)`: the listing call, then the continuation calls,
      with every answer consumed by exactly one call. */
  function ReadDirectory(path: string, now: int, pages: seq<Reply<Page>>): (r: Fetched<seq<Metadata>>)
    ensures |r.calls| >= 1 && r.calls[0] == ListFolder(ListingPath(path))
    ensures r.reply.None? ==> |r.calls| == |pages| + 1
    ensures r.reply.Some? ==> |r.calls| <= |pages|
  {
    var rest := Follow(pages, [], now);
    Fetched([ListFolder(ListingPath(path))] + rest.calls, rest.reply)
  }

  /** A complete listing: pages that all say more follows, except the last. */
  predicate IsChain(ps: seq<Page>)
  {
    |ps| >= 1 && !ps[|ps| - 1].hasMore && forall i :: 0 <= i < |ps| - 1 ==> ps[i].hasMore
  }

  /** Every entry of every page, in page order. */
  function AllEntries(ps: seq<Page>): seq<RemoteEntry>
  {
    if |ps| == 0 then [] else ps[0].entries + AllEntries(ps[1..])
  }

  /** The continuation calls a chain takes: one per page but the last. */
  function Continuations(ps: seq<Page>): seq<Call>
  {
    if |ps| <= 1 then [] else [ListFolderContinue(ps[0].cursor)] + Continuations(ps[1..])
  }

  /** One answered page with more behind it: its continuation call, then the
      rest of the loop with its entries gathered. */
  lemma FollowMore(pages: seq<Reply<Page>>, acc: seq<Metadata>, now: int)
    requires |pages| > 0 && pages[0].Ok? && pages[0].value.hasMore
    ensures var rest := Follow(pages[1..], acc + ConvertAll(pages[0].value.entries, now), now);
      Follow(pages, acc, now) == Fetched([ListFolderContinue(pages[0].value.cursor)] + rest.calls, rest.reply)
  {
  }

  /** The last page ends the loop with its entries gathered. */
  lemma FollowLast(pages: seq<Reply<Page>>, acc: seq<Metadata>, now: int)
    requires |pages| > 0 && pages[0].Ok? && !pages[0].value.hasMore
    ensures Follow(pages, acc, now) == Fetched([], Some(Ok(acc + ConvertAll(pages[0].value.entries, now))))
  {
  }

  /** The entries and continuations of a chain, split after its first page. */
  lemma ChainTail(ps: seq<Page>)
    requires IsChain(ps) && |ps| > 1
    ensures IsChain(ps[1..])
    ensures AllEntries(ps) == ps[0].entries + AllEntries(ps[1..])
    ensures Continuations(ps) == [ListFolderContinue(ps[0].cursor)] + Continuations(ps[1..])
  {
  }

  /** Following a complete chain yields everything before it plus every
      page's converted entries in order. */
  lemma {:induction false} FollowChain(pages: seq<Reply<Page>>, ps: seq<Page>, acc: seq<Metadata>, now: int)
    requires IsChain(ps) && |ps| <= |pages|
    requires forall i :: 0 <= i < |ps| ==> pages[i] == Ok(ps[i])
    ensures Follow(pages, acc, now) == Fetched(Continuations(ps), Some(Ok(acc + ConvertAll(AllEntries(ps), now))))
    decreases |ps|
  {
    var page := ps[0];
    assert pages[0] == Ok(page);
    if |ps| == 1 {
      FollowLast(pages, acc, now);
      assert ps[1..] == [];
      assert AllEntries(ps) == page.entries + AllEntries([]);
      assert page.entries + [] == page.entries;
    } else {
      var entries := acc + ConvertAll(page.entries, now);
      FollowMore(pages, acc, now);
      ChainTail(ps);
      assert forall i :: 0 <= i < |ps| - 1 ==> pages[1..][i] == Ok(ps[1..][i]);
      FollowChain(pages[1..], ps[1..], entries, now);
      ConvertAppend(page.entries, AllEntries(ps[1..]), now);
      var later := ConvertAll(AllEntries(ps[1..]), now);
      Associative(acc, ConvertAll(page.entries, now), later);
    }
  }

  lemma Associative<T>(a: seq<T>, b: seq<T>, c: seq<T>)
    ensures (a + b) + c == a + (b + c)
  {
  }

  /** With every page answered, `readDirectory` returns every page's entries
      concatenated in fetch order, after the listing call and one
      continuation per page that said more follows. */
  lemma ReadDirectoryComplete(path: string, now: int, pages: seq<Reply<Page>>, ps: seq<Page>)
    requires IsChain(ps) && |ps| <= |pages|
    requires forall i :: 0 <= i < |ps| ==> pages[i] == Ok(ps[i])
    ensures ReadDirectory(path, now, pages) ==
      Fetched([ListFolder(ListingPath(path))] + Continuations(ps), Some(Ok(ConvertAll(AllEntries(ps), now))))
  {
    FollowChain(pages, ps, [], now);
    assert [] + ConvertAll(AllEntries(ps), now) == ConvertAll(AllEntries(ps), now);
  }

  /** A failed page fails the whole listing with its error: entries already
      gathered are dropped. */
  lemma {:induction false} FollowFails(pages: seq<Reply<Page>>, acc: seq<Metadata>, now: int, k: nat)
    requires k < |pages| && pages[k].Err?
    requires forall i :: 0 <= i < k ==> pages[i].Ok? && pages[i].value.hasMore
    ensures Follow(pages, acc, now).reply == Some(Err(pages[k].code))
    ensures |Follow(pages, acc, now).calls| == k
    decreases k
  {
    if k > 0 {
      FollowFails(pages[1..], acc + ConvertAll(pages[0].value.entries, now), now, k - 1);
    }
  }
}
