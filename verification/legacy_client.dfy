/** The single-tenant client of the first generation, written against the
    Dropbox v1 API: its error policy (no retries, no 409 case, unmount before
    replying to a 401), stat and listing with `is_deleted` and MIME types,
    and the chunked upload in which the server assigns the upload id on the
    first chunk. Every remote call is an input: its HTTP outcome. */
module LegacyClient {
  import opened Common
  import opened Strings
  import HttpFetcher
  import Content

  // ---------------------------------------------------------------------
  // Error policy

  /** What a request delivers: a value, the empty buffer that a 416
      produces, or an error (after unmounting when `unmountFirst`). */
  datatype Delivery<T> = Delivered(value: T) | EmptyBuffer | Refused(code: ErrorCode, unmountFirst: bool)

  /** `handleError`. */
  function HandleError<T>(status: int): (d: Delivery<T>)
    ensures status == 404 <==> d == Refused(NotFound, false)
    ensures status == 416 <==> d.EmptyBuffer?
    ensures status == 401 <==> d == Refused(InvalidOperation, true)
    ensures status !in {401, 404, 416} <==> d == Refused(Failed, false)
    ensures !d.Delivered?
  {
    if status == 404 then Refused(NotFound, false)
    else if status == 416 then EmptyBuffer
    else if status == 401 then Refused(InvalidOperation, true)
    else Refused(Failed, false)
  }

  /** One HTTP outcome as the legacy client delivers it. */
  function Deliver<T>(resp: HttpFetcher.Response<T>): (d: Delivery<T>)
    ensures resp.Done? ==> d == Delivered(resp.result)
    ensures resp.HttpError? ==> d == HandleError(resp.status)
  {
    match resp
    case Done(v) => Delivered(v)
    case HttpError(status, _) => HandleError(status)
  }

  /** The two generations agree on 404, 416 and 401 (the current one replies
      to a 401 without waiting for the unmount); the current one also maps
      409 to `NOT_FOUND` and retries rate limiting and transport failures,
      where the legacy one fails at once. */
  lemma PoliciesCompared<T>(status: int, retryAfter: Option<string>, empty: T)
    ensures var legacy := HandleError<T>(status);
      var current := HttpFetcher.Classify<T>(HttpFetcher.HttpError(status, retryAfter), empty);
      && (status == 404 ==> legacy == Refused(NotFound, false) && current == HttpFetcher.Deliver(Err(NotFound), false, false))
      && (status == 416 ==> legacy.EmptyBuffer? && current == HttpFetcher.Deliver(Ok(empty), false, false))
      && (status == 401 ==> legacy.unmountFirst && current.unmount && current.reply == Err(legacy.code))
      && (status == 409 ==> legacy == Refused(Failed, false) && current.reply == Err(NotFound))
      && (status == 0 ==> legacy == Refused(Failed, false) && current.Refetch?)
      && ((status == 429 && Truthy(retryAfter)) ==> legacy == Refused(Failed, false) && current.Refetch?)
  {
  }

  // ---------------------------------------------------------------------
  // Names and entries

  /** `getNameFromPath`: the last `/`-separated piece of the path. */
  function NameFromPath(path: string): (name: string)
    ensures '/' !in name && |name| <= |path|
    ensures path[|path| - |name|..] == name
    ensures |name| < |path| ==> path[|path| - |name| - 1] == '/'
  {
    var parts := Split(path, '/');
    var last := parts[|parts| - 1];
    if |parts| == 1 then last
    else
      JoinLast(parts, "/");
      last
  }

  /** The name is everything after the last `/`. */
  lemma NameAfterLastSlash(path: string)
    ensures NameFromPath(path) == path[LastIndexOf(path, '/') + 1..]
  {
    var name := NameFromPath(path);
    var k := |path| - |name|;
    if |name| < |path| {
      assert path[k..] == name;
      LastIndexOfAt(path, '/', k - 1);
    } else {
      assert name == path;
    }
  }

  /** The name of a child path is the child's own name. */
  lemma NameOfChild(dir: string, name: string)
    requires '/' !in name
    ensures NameFromPath(dir + "/" + name) == name
  {
    var path := dir + "/" + name;
    assert path[|dir| + 1..] == name;
    LastIndexOfAt(path, '/', |dir|);
    NameAfterLastSlash(path);
  }

  /** A v1 metadata record. `modified` is already parsed to milliseconds. */
  datatype Entry = Entry(
    isDir: bool,
    path: string,
    bytes: int,
    modified: Option<int>,
    mimeType: Option<string>,
    thumbExists: bool,
    isDeleted: bool)

  /** A record as stat metadata: the name from the path, a missing
      modification instant replaced by `now`, a MIME type only for files. */
  function StatMetadata(e: Entry, now: int, thumbnail: Option<string>): (m: Metadata)
    ensures m.isDirectory == e.isDir && m.name == NameFromPath(e.path) && m.size == e.bytes
    ensures m.modificationTime == Date(if e.modified.Some? then e.modified.value else now)
    ensures m.mimeType == (if e.isDir then None else e.mimeType)
    ensures m.thumbnail == thumbnail
  {
    Metadata(e.isDir, NameFromPath(e.path), e.bytes,
      Date(if e.modified.Some? then e.modified.value else now),
      if e.isDir then None else e.mimeType, thumbnail)
  }

  /** A record as a listing entry: as a stat, but without thumbnail and
      without a default instant, so a missing one is an invalid date. */
  function ListedMetadata(e: Entry): (m: Metadata)
    ensures m.isDirectory == e.isDir && m.name == NameFromPath(e.path) && m.size == e.bytes
    ensures m.modificationTime == (if e.modified.Some? then Date(e.modified.value) else InvalidDate)
    ensures m.mimeType == (if e.isDir then None else e.mimeType)
    ensures m.thumbnail.None?
  {
    Metadata(e.isDir, NameFromPath(e.path), e.bytes,
      if e.modified.Some? then Date(e.modified.value) else InvalidDate,
      if e.isDir then None else e.mimeType, None)
  }

  /** The calls of the legacy client. */
  datatype Call =
    | MetadataCall(path: string, list: bool)
    | ThumbnailCall(path: string)
    | ChunkedUpload(offset: int, uploadId: Option<string>, chunk: Bytes)
    | CommitUpload(path: string, uploadId: Option<string>)
    | FileDownload(path: string)

  /** What one request did (`None`: no reply, now or ever, for the calls
      made). */
  datatype Fetched<T> = Fetched(calls: seq<Call>, reply: Option<Delivery<T>>)

  /** `getMetadata(path, needThumbnail)`: a deleted entry is not found; a
      thumbnail is fetched only when asked for and the entry has one, and its
      failure is delivered as the request's failure. A 416 on the thumbnail
      hands the empty buffer over as the thumbnail, written here as `""`. */
  function GetMetadata(path: string, needThumbnail: bool, now: int,
                       answer: HttpFetcher.Response<Entry>, thumb: HttpFetcher.Response<string>): (r: Fetched<Metadata>)
    ensures |r.calls| >= 1 && r.calls[0] == MetadataCall(path, false) && r.reply.Some?
    ensures answer.HttpError? ==> r == Fetched([MetadataCall(path, false)], Some(HandleError(answer.status)))
    ensures answer.Done? && answer.result.isDeleted ==> r == Fetched([MetadataCall(path, false)], Some(Refused(NotFound, false)))
    ensures |r.calls| == 2 <==> answer.Done? && !answer.result.isDeleted && needThumbnail && answer.result.thumbExists
    ensures |r.calls| == 2 ==> r.calls[1] == ThumbnailCall(path)
    ensures r.reply.value.Delivered? ==>
      answer.Done? && !answer.result.isDeleted
      && r.reply.value.value.mimeType == (if answer.result.isDir then None else answer.result.mimeType)
      && (r.reply.value.value.thumbnail.Some? <==> |r.calls| == 2)
    ensures answer.Done? && !answer.result.isDeleted && |r.calls| == 1 ==>
      r.reply == Some(Delivered(StatMetadata(answer.result, now, None)))
    ensures |r.calls| == 2 && thumb.Done? ==>
      r.reply == Some(Delivered(StatMetadata(answer.result, now, Some(thumb.result))))
    ensures |r.calls| == 2 && Deliver(thumb).EmptyBuffer? ==>
      r.reply == Some(Delivered(StatMetadata(answer.result, now, Some(""))))
    ensures |r.calls| == 2 && Deliver(thumb).Refused? ==>
      r.reply == Some(Refused(Deliver(thumb).code, Deliver(thumb).unmountFirst))
  {
    var first := MetadataCall(path, false);
    match answer
    case HttpError(status, _) => Fetched([first], Some(HandleError(status)))
    case Done(e) =>
      if e.isDeleted then Fetched([first], Some(Refused(NotFound, false)))
      else if needThumbnail && e.thumbExists then
        var calls := [first, ThumbnailCall(path)];
        match Deliver(thumb)
        case Delivered(image) => Fetched(calls, Some(Delivered(StatMetadata(e, now, Some(image)))))
        case EmptyBuffer => Fetched(calls, Some(Delivered(StatMetadata(e, now, Some("")))))
        case Refused(code, unmountFirst) => Fetched(calls, Some(Refused(code, unmountFirst)))
      else Fetched([first], Some(Delivered(StatMetadata(e, now, None))))
  }

  /** A remote stat of a child without a thumbnail names the child, and it
      reports the entry exactly as a listing of the parent would, except that
      a missing modification instant reads as `now`. */
  lemma StatAgreesWithListing(dir: string, name: string, e: Entry, now: int, thumb: HttpFetcher.Response<string>)
    requires '/' !in name && e.path == dir + "/" + name && !e.isDeleted
    ensures var r := GetMetadata(dir + "/" + name, false, now, HttpFetcher.Done(e), thumb);
      && r.calls == [MetadataCall(dir + "/" + name, false)]
      && r.reply.value.Delivered?
      && r.reply.value.value.name == name
      && (e.modified.Some? ==> r.reply.value.value == ListedMetadata(e))
      && (e.modified.None? ==> r.reply.value.value == ListedMetadata(e).(modificationTime := Date(now)))
  {
    NameOfChild(dir, name);
  }

  /** A v1 listing answer. */
  datatype Listing = Listing(isDeleted: bool, contents: seq<Entry>)

  /** `readDirectory`: one listing call. A deleted directory is not found; a
      failed call has no error handler, so the request is never answered. */
  function ReadDirectory(path: string, answer: HttpFetcher.Response<Listing>): (r: Fetched<seq<Metadata>>)
    ensures r.calls == [MetadataCall(path, true)]
    ensures r.reply.None? <==> answer.HttpError?
    ensures answer.Done? && answer.result.isDeleted ==> r.reply == Some(Refused(NotFound, false))
    ensures answer.Done? && !answer.result.isDeleted ==>
      && r.reply.Some? && r.reply.value.Delivered?
      && |r.reply.value.value| == |answer.result.contents|
      && forall i :: 0 <= i < |answer.result.contents| ==>
           r.reply.value.value[i] == ListedMetadata(answer.result.contents[i])
  {
    var call := MetadataCall(path, true);
    match answer
    case HttpError(_, _) => Fetched([call], None)
    case Done(l) =>
      if l.isDeleted then Fetched([call], Some(Refused(NotFound, false)))
      else
        var cs := l.contents;
        Fetched([call], Some(Delivered(seq(|cs|, i requires 0 <= i < |cs| => ListedMetadata(cs[i])))))
  }

  /** Listings never carry thumbnails, and a listed file without a
      modification instant carries an invalid date rather than `now`. */
  lemma ListingWithoutInstant(path: string, e: Entry)
    requires !e.isDir && e.modified.None?
    ensures var r := ReadDirectory(path, HttpFetcher.Done(Listing(false, [e])));
      r.reply.value.value[0].modificationTime == InvalidDate && r.reply.value.value[0].thumbnail.None?
  {
  }

  // ---------------------------------------------------------------------
  // Upload

  /** The open-file record: the mode, and the upload id once the server has
      assigned one. */
  datatype Mode = ReadMode | WriteMode
  datatype Record = Record(mode: Mode, uploadId: Option<string>)
  type Handles = map<int, Record>

  /** The loop state: as in the current client, except that the upload id is
      optional until the server's first answer. */
  datatype Upload = Upload(
    path: string,
    data: Bytes,
    offset: int,
    sent: nat,
    uploadId: Option<string>,
    hasMore: bool,
    needCommit: bool,
    handle: Option<int>)

  /** The `upload_id` query parameter: present only for a truthy id. */
  function Carried(id: Option<string>): (c: Option<string>)
    ensures c.Some? <==> Truthy(id)
    ensures c.Some? ==> c == id
  {
    if Truthy(id) then id else None
  }

  function ChunkLength(u: Upload): (n: nat)
    requires u.sent <= |u.data|
    ensures u.sent + n <= |u.data| && n <= Content.CHUNK_SIZE
    ensures n == Content.CHUNK_SIZE || n == |u.data| - u.sent
  {
    var remains := |u.data| - u.sent;
    if Content.CHUNK_SIZE < remains then Content.CHUNK_SIZE else remains
  }

  /** The id the server assigned is stored on the handle, if it is open. */
  function StoreId(handles: Handles, handle: Option<int>, id: string): (r: Handles)
    ensures r.Keys == handles.Keys
    ensures forall k :: k in handles ==> r[k].mode == handles[k].mode
    ensures handle.Some? && handle.value in handles ==> r[handle.value].uploadId == Some(id)
    ensures forall k :: k in handles && !(handle.Some? && k == handle.value) ==> r[k] == handles[k]
  {
    if handle.Some? && handle.value in handles then
      handles[handle.value := handles[handle.value].(uploadId := Some(id))]
    else handles
  }

  /** The outcome of the upload loop. */
  datatype Outcome = Outcome(calls: seq<Call>, handles: Handles, reply: Option<Delivery<()>>)

  /** `sendContents` with the chunk `[sent, sent + length)` and `sent`
      advanced by the chunk length (the loop as written slices up to the
      length and advances from an unset property, exactly as the current
      client's loop). Each chunk carries the id the previous answer assigned;
      the commit carries the last one. */
  function Send(u: Upload, handles: Handles, answers: seq<HttpFetcher.Response<string>>): (o: Outcome)
    requires u.sent <= |u.data|
    ensures o.handles.Keys == handles.Keys
    ensures forall k :: k in handles ==> o.handles[k].mode == handles[k].mode
    ensures o.reply.None? ==> |o.calls| == |answers| + 1
    ensures o.reply.Some? ==> |o.calls| <= |answers|
    decreases |answers|, if u.hasMore then 1 else 0
  {
    if !u.hasMore then
      if u.needCommit then
        var c := CommitUpload(u.path, u.uploadId);
        if |answers| == 0 then Outcome([c], handles, None)
        else Outcome([c], handles, Some(match answers[0] case Done(_) => Delivered(()) case HttpError(s, _) => HandleError(s)))
      else Outcome([], handles, Some(Delivered(())))
    else
      var n := ChunkLength(u);
      var call := ChunkedUpload(u.offset, Carried(u.uploadId), u.data[u.sent..u.sent + n]);
      if |answers| == 0 then Outcome([call], handles, None)
      else
        match answers[0]
        case HttpError(s, _) => Outcome([call], handles, Some(HandleError(s)))
        case Done(id) =>
          var rest := Send(Next(u, id), StoreId(handles, u.handle, id), answers[1..]);
          Outcome([call] + rest.calls, rest.handles, rest.reply)
  }

  /** The reference upload: chunk `i` goes at the next offset and carries
      the id the server gave for chunk `i - 1` (the first carries `first`);
      the commit carries the id given for the last chunk. */
  function Reference(path: string, cs: seq<Bytes>, offset: int, first: Option<string>,
                     ids: seq<string>, commit: bool): (calls: seq<Call>)
    requires |ids| >= |cs|
    ensures |calls| == |cs| + (if commit then 1 else 0)
    ensures forall i :: 0 <= i < |cs| ==> calls[i].ChunkedUpload? && calls[i].chunk == cs[i]
    ensures commit ==> calls[|cs|].CommitUpload? && calls[|cs|].path == path
    ensures |cs| > 0 ==> calls[0].uploadId == Carried(first)
    ensures forall i :: 0 < i < |cs| ==> calls[i].uploadId == Carried(Some(ids[i - 1]))
    decreases |cs|
  {
    if |cs| == 0 then (if commit then [CommitUpload(path, first)] else [])
    else
      var rest := Reference(path, cs[1..], offset + |cs[0]|, Some(ids[0]), ids[1..], commit);
      var calls := [ChunkedUpload(offset, Carried(first), cs[0])] + rest;
      assert forall i :: 1 < i < |cs| ==> calls[i] == rest[i - 1] && ids[1..][i - 2] == ids[i - 1];
      calls
  }

  /** All answers are successes; `ids[i]` is the id the `i`-th answer gives. */
  predicate AllDone(answers: seq<HttpFetcher.Response<string>>, ids: seq<string>)
  {
    |answers| == |ids| && forall i :: 0 <= i < |answers| ==> answers[i] == HttpFetcher.Done(ids[i])
  }

  /** The loop state after a chunk that the server answered with `id`. */
  function Next(u: Upload, id: string): (next: Upload)
    requires u.sent <= |u.data|
    ensures next.data == u.data && u.sent <= next.sent <= |next.data|
    ensures next.uploadId == Some(id) && next.path == u.path && next.needCommit == u.needCommit && next.handle == u.handle
  {
    var n := ChunkLength(u);
    u.(offset := u.offset + n, sent := u.sent + n, uploadId := Some(id), hasMore := u.sent + n < |u.data|)
  }

  /** One answered chunk: its call, then the loop from the id it assigned. */
  lemma SendStep(u: Upload, handles: Handles, answers: seq<HttpFetcher.Response<string>>, id: string)
    requires u.hasMore && u.sent <= |u.data| && |answers| > 0
    requires answers[0].Done? && answers[0].result == id
    ensures var rest := Send(Next(u, id), StoreId(handles, u.handle, id), answers[1..]);
      Send(u, handles, answers) ==
        Outcome([ChunkedUpload(u.offset, Carried(u.uploadId), u.data[u.sent..u.sent + ChunkLength(u)])] + rest.calls, rest.handles, rest.reply)
  {
  }

  /** The reference upload of more than one chunk, split after its first. */
  lemma ReferenceCons(path: string, d: Bytes, offset: int, first: Option<string>, ids: seq<string>, commit: bool)
    requires |d| > Content.CHUNK_SIZE && |ids| >= |Content.Chunks(d)|
    ensures |Content.Chunks(d)| == 1 + |Content.Chunks(d[Content.CHUNK_SIZE..])|
    ensures Reference(path, Content.Chunks(d), offset, first, ids, commit) ==
      [ChunkedUpload(offset, Carried(first), d[..Content.CHUNK_SIZE])]
      + Reference(path, Content.Chunks(d[Content.CHUNK_SIZE..]), offset + Content.CHUNK_SIZE, Some(ids[0]), ids[1..], commit)
  {
    var cs := Content.Chunks(d);
    assert cs == [d[..Content.CHUNK_SIZE]] + Content.Chunks(d[Content.CHUNK_SIZE..]);
    assert cs[1..] == Content.Chunks(d[Content.CHUNK_SIZE..]);
  }

  /** A full chunk followed by more: the loop and the reference both take
      that chunk and continue from the next state. */
  lemma SendMore(u: Upload, handles: Handles, answers: seq<HttpFetcher.Response<string>>, ids: seq<string>)
    requires u.hasMore && u.sent <= |u.data| && |ids| >= 1 && Next(u, ids[0]).hasMore
    requires |answers| >= 1 && answers[0] == HttpFetcher.Done(ids[0])
    requires |ids| >= |Content.Chunks(u.data[u.sent..])|
    ensures var next := Next(u, ids[0]);
      var tail := Send(next, StoreId(handles, u.handle, ids[0]), answers[1..]);
      var chunk := [ChunkedUpload(u.offset, Carried(u.uploadId), u.data[u.sent..][..Content.CHUNK_SIZE])];
      && Send(u, handles, answers) == Outcome(chunk + tail.calls, tail.handles, tail.reply)
      && Reference(u.path, Content.Chunks(u.data[u.sent..]), u.offset, u.uploadId, ids, u.needCommit) ==
         chunk + Reference(u.path, Content.Chunks(u.data[next.sent..]), next.offset, Some(ids[0]), ids[1..], u.needCommit)
      && |Content.Chunks(u.data[u.sent..])| == 1 + |Content.Chunks(u.data[next.sent..])|
  {
    var rest := u.data[u.sent..];
    var next := Next(u, ids[0]);
    SendStep(u, handles, answers, ids[0]);
    assert ChunkLength(u) == Content.CHUNK_SIZE;
    assert u.data[u.sent..u.sent + Content.CHUNK_SIZE] == rest[..Content.CHUNK_SIZE];
    assert rest[Content.CHUNK_SIZE..] == u.data[next.sent..];
    ReferenceCons(u.path, rest, u.offset, u.uploadId, ids, u.needCommit);
  }

  /** With every answer a success, the loop issues the reference upload of
      the remaining data and succeeds, and the handle ends holding the id the
      last chunk was given. */
  lemma {:induction false} SendAllDone(u: Upload, handles: Handles, answers: seq<HttpFetcher.Response<string>>, ids: seq<string>)
    requires u.hasMore && u.sent <= |u.data|
    requires AllDone(answers, ids)
    requires |ids| >= |Content.Chunks(u.data[u.sent..])| + (if u.needCommit then 1 else 0)
    ensures var o := Send(u, handles, answers);
      var k := |Content.Chunks(u.data[u.sent..])|;
      && o.reply == Some(Delivered(()))
      && o.calls == Reference(u.path, Content.Chunks(u.data[u.sent..]), u.offset, u.uploadId, ids, u.needCommit)
      && o.handles == StoreId(handles, u.handle, ids[k - 1])
    decreases |answers|
  {
    var next := Next(u, ids[0]);
    if next.hasMore {
      var k := |Content.Chunks(u.data[u.sent..])|;
      var h1 := StoreId(handles, u.handle, ids[0]);
      SendMore(u, handles, answers, ids);
      assert |Content.Chunks(u.data[next.sent..])| == k - 1;
      assert AllDone(answers[1..], ids[1..]);
      SendAllDone(next, h1, answers[1..], ids[1..]);
      var tail := Send(next, h1, answers[1..]);
      assert ids[1..][k - 2] == ids[k - 1];
      assert tail.handles == StoreId(h1, u.handle, ids[k - 1]);
      StoreTwice(handles, u.handle, ids[0], ids[k - 1]);
      assert Send(u, handles, answers).handles == tail.handles;
    } else {
      SendLastChunk(u, handles, answers, ids);
    }
  }

  lemma StoreTwice(handles: Handles, handle: Option<int>, a: string, b: string)
    ensures StoreId(StoreId(handles, handle, a), handle, b) == StoreId(handles, handle, b)
  {
  }

  /** The last chunk: its call, then the commit (if asked) with its id. */
  lemma SendLastChunk(u: Upload, handles: Handles, answers: seq<HttpFetcher.Response<string>>, ids: seq<string>)
    requires u.hasMore && u.sent <= |u.data| && u.sent + ChunkLength(u) == |u.data|
    requires AllDone(answers, ids)
    requires |ids| >= |Content.Chunks(u.data[u.sent..])| + (if u.needCommit then 1 else 0)
    ensures var o := Send(u, handles, answers);
      && o.reply == Some(Delivered(()))
      && o.calls == Reference(u.path, Content.Chunks(u.data[u.sent..]), u.offset, u.uploadId, ids, u.needCommit)
      && o.handles == StoreId(handles, u.handle, ids[0])
  {
    var rest := u.data[u.sent..];
    var n := ChunkLength(u);
    assert n == |rest| && u.data[u.sent..u.sent + n] == rest;
    assert Content.Chunks(rest) == [rest];
    var cs := Content.Chunks(rest);
    assert cs[1..] == [];
    SendStep(u, handles, answers, ids[0]);
    if u.needCommit {
      assert answers[1..][0] == HttpFetcher.Done(ids[1]);
    }
  }

  // ---------------------------------------------------------------------
  // open, write, close, truncate

  /** `openFile`: a record holding only the mode. */
  function OpenFile(handles: Handles, rid: int, mode: Mode): (r: Handles)
    ensures r.Keys == handles.Keys + {rid} && r[rid] == Record(mode, None)
    ensures forall k :: k in handles && k != rid ==> r[k] == handles[k]
  {
    handles[rid := Record(mode, None)]
  }

  /** `writeFile`: upload into the handle's session, if it has one, without
      committing. Writing to a request id that was never opened throws, so
      nothing is sent and nothing replies. */
  function WriteFile(handles: Handles, rid: int, path: string, data: Bytes, offset: int,
                     answers: seq<HttpFetcher.Response<string>>): (o: Outcome)
    ensures rid !in handles ==> o == Outcome([], handles, None)
    ensures rid in handles ==>
      |o.calls| >= 1 && o.calls[0].ChunkedUpload?
      && o.calls[0].offset == offset && o.calls[0].uploadId == Carried(handles[rid].uploadId)
    ensures o.handles.Keys == handles.Keys
  {
    if rid !in handles then Outcome([], handles, None)
    else
      Send(Upload(path, data, offset, 0, handles[rid].uploadId, true, false, Some(rid)), handles, answers)
  }

  /** Open then an all-successful write: the first chunk goes without an
      id, and the handle ends with the id of the last chunk. */
  lemma FirstChunkWithoutId(handles: Handles, rid: int, mode: Mode, path: string, data: Bytes, offset: int,
                            answers: seq<HttpFetcher.Response<string>>, ids: seq<string>)
    requires AllDone(answers, ids) && |ids| >= |Content.Chunks(data)|
    ensures var o := WriteFile(OpenFile(handles, rid, mode), rid, path, data, offset, answers);
      && o.calls[0].uploadId.None?
      && o.handles[rid] == Record(mode, Some(ids[|Content.Chunks(data)| - 1]))
      && o.reply == Some(Delivered(()))
  {
    var h := OpenFile(handles, rid, mode);
    assert data[0..] == data;
    SendAllDone(Upload(path, data, offset, 0, None, true, false, Some(rid)), h, answers, ids);
  }

  /** `closeFile`: commit the session with its id, but only for a handle
      opened for writing that has an id; anything else succeeds at once. */
  function CloseFile(handles: Handles, rid: int, path: string, answer: Option<HttpFetcher.Response<()>>): (r: Fetched<()>)
    ensures |r.calls| <= 1
    ensures |r.calls| == 1 <==> rid in handles && handles[rid].mode == WriteMode && Truthy(handles[rid].uploadId)
    ensures |r.calls| == 1 ==> r.calls[0] == CommitUpload(path, handles[rid].uploadId)
    ensures |r.calls| == 0 ==> r.reply == Some(Delivered(()))
    ensures |r.calls| == 1 && answer.Some? ==> r.reply == Some(Deliver(answer.value))
  {
    if rid in handles && handles[rid].mode == WriteMode && Truthy(handles[rid].uploadId) then
      var c := CommitUpload(path, handles[rid].uploadId);
      if answer.None? then Fetched([c], None) else Fetched([c], Some(Deliver(answer.value)))
    else Fetched([], Some(Delivered(())))
  }

  /** A handle opened for reading never commits, whatever it holds. */
  lemma ReadHandleNeverCommits(handles: Handles, rid: int, path: string, answer: Option<HttpFetcher.Response<()>>)
    requires rid in handles && handles[rid].mode == ReadMode
    ensures CloseFile(handles, rid, path, answer) == Fetched([], Some(Delivered(())))
  {
  }

  /** `truncate`: download the file, then upload the resized contents from
      offset 0 with no id and a forced commit. A 416 on the download replies
      success without uploading. */
  function Truncate(handles: Handles, path: string, length: int, download: HttpFetcher.Response<Bytes>,
                    answers: seq<HttpFetcher.Response<string>>): (o: Outcome)
    ensures |o.calls| >= 1 && o.calls[0] == FileDownload(path)
    ensures o.handles.Keys == handles.Keys
    ensures download.HttpError? ==> o == Outcome([FileDownload(path)], handles, Some(HandleError(download.status)))
  {
    match download
    case HttpError(s, _) => Outcome([FileDownload(path)], handles, Some(HandleError(s)))
    case Done(d) =>
      var o := Send(Upload(path, Content.Resize(d, length), 0, 0, None, true, true, None), handles, answers);
      Outcome([FileDownload(path)] + o.calls, o.handles, o.reply)
  }

  /** An all-successful truncate to `length` re-uploads exactly `length`
      bytes, starting without an id, and commits with the last id. */
  lemma TruncateAllDone(handles: Handles, path: string, length: nat, d: Bytes,
                        answers: seq<HttpFetcher.Response<string>>, ids: seq<string>)
    requires AllDone(answers, ids) && |ids| >= |Content.Chunks(Content.Resize(d, length))| + 1
    ensures var o := Truncate(handles, path, length, HttpFetcher.Done(d), answers);
      var r := Content.Resize(d, length);
      && |r| == length
      && o.reply == Some(Delivered(()))
      && o.calls == [FileDownload(path)] + Reference(path, Content.Chunks(r), 0, None, ids, true)
      && o.handles == handles
  {
    var r := Content.Resize(d, length);
    assert r[0..] == r;
    SendAllDone(Upload(path, r, 0, 0, None, true, true, None), handles, answers, ids);
  }
}
