/** The single-tenant provider of the first generation: one client (created
    at mount or on the first event after a restart), the token kept in
    storage, the request-id to path map of open files, and one metadata
    cache. Its handlers invalidate fewer paths than the current generation's,
    and unmounting keeps the client. */
module LegacyFs {
  import opened Common
  import MetadataCache
  import HttpFetcher
  import LegacyClient
  import Registry

  /** The client object: its token (absent until authorisation succeeds) and
      the open-file records it keeps for uploads. */
  datatype Client = Client(accessToken: Option<string>, handles: LegacyClient.Handles)

  /** The provider. `stored` is the token in local storage; `mounted` says
      whether the file system `dropboxfs` is mounted. */
  datatype State = State(
    client: Option<Client>,
    stored: Option<string>,
    openedFiles: map<int, string>,
    cache: MetadataCache.Cache,
    mounted: bool)

  /** What a handler hands to the file system's success callback. */
  datatype Payload = Nothing | Entry(metadata: Metadata) | Entries(list: seq<Metadata>) | EmptyBuffer

  /** One handled event: the state after it, the remote calls it made, and
      its reply (`None`: it never replies). */
  datatype Handled = Handled(st: State, calls: seq<LegacyClient.Call>, reply: Option<Reply<Payload>>)

  // ---------------------------------------------------------------------
  // mount, resume, unmount

  /** `mount`: refused while `dropboxfs` is mounted. Otherwise a fresh
      client is installed before authorising; a failed authorisation leaves
      it in place, a failed mount drops it, and a successful mount stores
      the token. */
  function Mount(st: State, token: Reply<string>, mountError: Option<string>): (r: (State, Reply<()>))
    ensures st.mounted ==> r == (st, Err(AlreadyMounted))
    ensures r.1.Ok? <==> !st.mounted && token.Ok? && mountError.None?
    ensures r.1.Ok? ==> r.0 == st.(client := Some(Client(Some(token.value), map[])), stored := Some(token.value), mounted := true)
    ensures !st.mounted && token.Err? ==> r == (st.(client := Some(Client(None, map[]))), Err(token.code))
    ensures !st.mounted && token.Ok? && mountError.Some? ==> r == (st.(client := None), Err(Reason(mountError.value)))
  {
    if st.mounted then (st, Err(AlreadyMounted))
    else
      match token
      case Err(code) => (st.(client := Some(Client(None, map[]))), Err(code))
      case Ok(t) =>
        if mountError.Some? then (st.(client := None), Err(Reason(mountError.value)))
        else (st.(client := Some(Client(Some(t), map[])), stored := Some(t), mounted := true), Ok(()))
  }

  /** `resume`: an existing client is kept; otherwise a new one is made from
      a truthy stored token, or the resume fails and nothing changes. */
  function Resume(st: State): (r: (State, Reply<()>))
    ensures st.client.Some? ==> r == (st, Ok(()))
    ensures st.client.None? && Truthy(st.stored) ==> r == (st.(client := Some(Client(st.stored, map[]))), Ok(()))
    ensures st.client.None? && !Truthy(st.stored) ==> r == (st, Err(AccessTokenNotFound))
    ensures r.1.Ok? ==> r.0.client.Some?
  {
    if st.client.Some? then (st, Ok(()))
    else if Truthy(st.stored) then (st.(client := Some(Client(st.stored, map[]))), Ok(()))
    else (st, Err(AccessTokenNotFound))
  }

  /** `doUnmount`: the token is revoked remotely, and whether or not that
      succeeds the file system is unmounted and the stored token removed.
      `revoked` is the revocation's outcome; a client without a truthy token
      is refused before any call, and a successful revocation leaves the
      client without its token. The client object, its records, the open
      files and the cache stay. */
  function DoUnmount(st: State, revoked: bool): (st': State)
    ensures !st'.mounted && st'.stored.None?
    ensures st'.openedFiles == st.openedFiles && st'.cache == st.cache
    ensures st'.client.Some? <==> st.client.Some?
    ensures st'.client.Some? ==> st'.client.value.handles == st.client.value.handles
    ensures revoked && st.client.Some? && Truthy(st.client.value.accessToken) ==> st'.client.value.accessToken.None?
    ensures !(revoked && st.client.Some? && Truthy(st.client.value.accessToken)) ==> st'.client == st.client
  {
    var client := if revoked && st.client.Some? && Truthy(st.client.value.accessToken)
      then Some(st.client.value.(accessToken := None)) else st.client;
    st.(client := client, mounted := false, stored := None)
  }

  /** Unmounting does not depend on the revocation's outcome except for the
      client's own token, and leaves no stored token from which a later
      restart could resume. */
  lemma UnmountEitherWay(st: State)
    ensures DoUnmount(st, true).(client := st.client) == DoUnmount(st, false)
    ensures DoUnmount(st, false).client == st.client
    ensures st.client.Some? && Truthy(st.client.value.accessToken) ==>
      DoUnmount(st, true).client == Some(st.client.value.(accessToken := None))
    ensures Resume(DoUnmount(st, true).(client := None)).1 == Err(AccessTokenNotFound)
  {
  }

  // ---------------------------------------------------------------------
  // Replies

  /** The reply to what the client delivered. A 401 unmounts before the
      error reaches the file system; `success` is the state after the
      handler's success callback, which a 416 also reaches. */
  function Conclude(st: State, success: State, calls: seq<LegacyClient.Call>,
                    d: Option<LegacyClient.Delivery<Payload>>): (h: Handled)
    ensures h.calls == calls
    ensures d.None? ==> h == Handled(st, calls, None)
    ensures d.Some? && d.value.Delivered? ==> h == Handled(success, calls, Some(Ok(d.value.value)))
    ensures d.Some? && d.value.EmptyBuffer? ==> h == Handled(success, calls, Some(Ok(EmptyBuffer)))
    ensures d.Some? && d.value.Refused? ==>
      h == Handled(if d.value.unmountFirst then DoUnmount(st, false) else st, calls, Some(Err(d.value.code)))
  {
    match d
    case None => Handled(st, calls, None)
    case Some(Delivered(v)) => Handled(success, calls, Some(Ok(v)))
    case Some(EmptyBuffer) => Handled(success, calls, Some(Ok(EmptyBuffer)))
    case Some(Refused(code, unmountFirst)) =>
      Handled(if unmountFirst then DoUnmount(st, false) else st, calls, Some(Err(code)))
  }

  /** A delivery of no value, as a payload delivery. The handlers using it
      call their success callback without an argument, so the empty buffer a
      416 delivers does not reach the file system. */
  function Unit(d: Option<LegacyClient.Delivery<()>>): Option<LegacyClient.Delivery<Payload>>
  {
    match d
    case None => None
    case Some(Delivered(_)) => Some(LegacyClient.Delivered(Nothing))
    case Some(EmptyBuffer) => Some(LegacyClient.Delivered(Nothing))
    case Some(Refused(code, u)) => Some(LegacyClient.Refused(code, u))
  }

  /** Whether the client reached its success callback. */
  predicate Succeeded<T>(d: Option<LegacyClient.Delivery<T>>)
  {
    d.Some? && (d.value.Delivered? || d.value.EmptyBuffer?)
  }

  // ---------------------------------------------------------------------
  // Handlers

  /** `onReadDirectoryRequested`: a listing is put into the cache before the
      reply. */
  function ReadDirectoryRequested(st: State, path: string, answer: HttpFetcher.Response<LegacyClient.Listing>): (h: Handled)
    ensures h.calls == [LegacyClient.MetadataCall(path, true)]
    ensures answer.HttpError? ==> h.reply.None? && h.st == st
    ensures answer.Done? && !answer.result.isDeleted ==>
      var list := LegacyClient.ReadDirectory(path, answer).reply.value.value;
      h == Handled(st.(cache := MetadataCache.Put(st.cache, path, list)), h.calls, Some(Ok(Entries(list))))
    ensures answer.Done? && answer.result.isDeleted ==> h == Handled(st, h.calls, Some(Err(NotFound)))
  {
    var f := LegacyClient.ReadDirectory(path, answer);
    var list := if f.reply.Some? && f.reply.value.Delivered? then f.reply.value.value else [];
    var d := if f.reply.Some? && f.reply.value.Delivered? then Some(LegacyClient.Delivered(Entries(list)))
             else if f.reply.Some? && f.reply.value.Refused? then Some(LegacyClient.Refused(f.reply.value.code, f.reply.value.unmountFirst))
             else None;
    Conclude(st, st.(cache := MetadataCache.Put(st.cache, path, list)), f.calls, d)
  }

  /** `onGetMetadataRequested`: a request for the thumbnail always goes to
      the server; otherwise a cache hit (parent listed and entry present) is
      served without a call, and anything else goes to the server without a
      thumbnail. The cache is never changed. */
  function GetMetadataRequested(st: State, path: string, thumbnail: bool, now: int,
                                answer: HttpFetcher.Response<LegacyClient.Entry>, thumb: HttpFetcher.Response<string>): (h: Handled)
    ensures h.st.cache == st.cache
    ensures h.calls == [] <==> !thumbnail && MetadataCache.Get(st.cache, path).Hit?
    ensures h.calls == [] ==> h == Handled(st, [], Some(Ok(Entry(MetadataCache.Get(st.cache, path).metadata))))
    ensures h.calls != [] ==> h.calls[0] == LegacyClient.MetadataCall(path, false)
    ensures h.calls != [] ==>
      h.calls == LegacyClient.GetMetadata(path, thumbnail, now, answer, thumb).calls
    ensures !thumbnail ==> |h.calls| <= 1
    ensures h.calls != [] ==>
      var f := LegacyClient.GetMetadata(path, thumbnail, now, answer, thumb);
      && (f.reply.value.Delivered? ==> h == Handled(st, f.calls, Some(Ok(Entry(f.reply.value.value)))))
      && (f.reply.value.EmptyBuffer? ==> h == Handled(st, f.calls, Some(Ok(EmptyBuffer))))
      && (f.reply.value.Refused? ==>
            h == Handled(if f.reply.value.unmountFirst then DoUnmount(st, false) else st, f.calls, Some(Err(f.reply.value.code))))
    ensures h.calls != [] && answer.HttpError? && answer.status == 401 ==>
      h == Handled(DoUnmount(st, false), [LegacyClient.MetadataCall(path, false)], Some(Err(InvalidOperation)))
  {
    var lookup := MetadataCache.Get(st.cache, path);
    if !thumbnail && lookup.Hit? then Handled(st, [], Some(Ok(Entry(lookup.metadata))))
    else
      var f := LegacyClient.GetMetadata(path, thumbnail, now, answer, thumb);
      var d := match f.reply.value
        case Delivered(m) => LegacyClient.Delivered(Entry(m))
        case EmptyBuffer => LegacyClient.EmptyBuffer
        case Refused(code, u) => LegacyClient.Refused(code, u);
      Conclude(st, st, f.calls, Some(d))
  }

  /** After a listing of a path's parent, a stat of the path without a
      thumbnail is answered from the cache exactly when the listing named
      it, with the last entry of that name. */
  lemma StatAfterListing(st: State, path: string, l: LegacyClient.Listing, now: int,
                         answer: HttpFetcher.Response<LegacyClient.Entry>, thumb: HttpFetcher.Response<string>)
    requires path != "/" && !l.isDeleted
    ensures var dir := MetadataCache.SplitPath(path).directory;
      var list := LegacyClient.ReadDirectory(dir, HttpFetcher.Done(l)).reply.value.value;
      var h1 := ReadDirectoryRequested(st, dir, HttpFetcher.Done(l));
      var h2 := GetMetadataRequested(h1.st, path, false, now, answer, thumb);
      && (h2.calls == [] <==> MetadataCache.SplitPath(path).name in MetadataCache.Names(list))
      && (h2.calls == [] ==> exists i :: 0 <= i < |list| && MetadataCache.LastWithName(list, i) && h2.reply == Some(Ok(Entry(list[i]))))
  {
    var dir := MetadataCache.SplitPath(path).directory;
    var list := LegacyClient.ReadDirectory(dir, HttpFetcher.Done(l)).reply.value.value;
    MetadataCache.GetAfterPut(st.cache, list, path);
  }

  /** The path of an open request id: for an id that is not open the source
      reads `undefined`, which turns into the text "undefined" in the URL. */
  function PathOf(st: State, rid: int): (path: string)
    ensures rid in st.openedFiles ==> path == st.openedFiles[rid]
  {
    if rid in st.openedFiles then st.openedFiles[rid] else "undefined"
  }

  /** The client's records, empty when there is no client. */
  function HandlesOf(st: State): LegacyClient.Handles
  {
    if st.client.Some? then st.client.value.handles else map[]
  }

  function WithHandles(st: State, handles: LegacyClient.Handles): State
    requires st.client.Some?
  {
    st.(client := Some(st.client.value.(handles := handles)))
  }

  /** `onOpenFileRequested`: the client records the mode, then the request
      id is mapped to the path. */
  function OpenFileRequested(st: State, rid: int, path: string, mode: LegacyClient.Mode): (h: Handled)
    requires st.client.Some?
    ensures h.calls == [] && h.reply == Some(Ok(Nothing))
    ensures h.st.openedFiles == st.openedFiles[rid := path]
    ensures h.st.client.Some? && h.st.client.value.handles == LegacyClient.OpenFile(st.client.value.handles, rid, mode)
    ensures h.st.cache == st.cache && h.st.stored == st.stored && h.st.mounted == st.mounted
  {
    var handles := LegacyClient.OpenFile(st.client.value.handles, rid, mode);
    Handled(WithHandles(st, handles).(openedFiles := st.openedFiles[rid := path]), [], Some(Ok(Nothing)))
  }

  /** `onCloseFileRequested`: the mapping is deleted only once the close has
      succeeded; the client's record stays. */
  function CloseFileRequested(st: State, rid: int, answer: Option<HttpFetcher.Response<()>>): (h: Handled)
    requires st.client.Some?
    ensures var f := LegacyClient.CloseFile(st.client.value.handles, rid, PathOf(st, rid), answer);
      && h.calls == f.calls
      && (Succeeded(f.reply) ==> h.st == st.(openedFiles := st.openedFiles - {rid}) && h.reply == Some(Ok(Nothing)))
      && (!Succeeded(f.reply) ==> h.st.openedFiles == st.openedFiles)
    ensures h.st.client == st.client && h.st.cache == st.cache
  {
    var f := LegacyClient.CloseFile(st.client.value.handles, rid, PathOf(st, rid), answer);
    Conclude(st, st.(openedFiles := st.openedFiles - {rid}), f.calls, Unit(f.reply))
  }

  /** Opening for reading and closing again makes no call and leaves no
      mapping behind. */
  lemma OpenReadClose(st: State, rid: int, path: string, answer: Option<HttpFetcher.Response<()>>)
    requires st.client.Some?
    ensures var h1 := OpenFileRequested(st, rid, path, LegacyClient.ReadMode);
      var h2 := CloseFileRequested(h1.st, rid, answer);
      && h2.calls == [] && h2.reply == Some(Ok(Nothing))
      && rid !in h2.st.openedFiles
      && h2.st.openedFiles == st.openedFiles - {rid}
  {
    var h1 := OpenFileRequested(st, rid, path, LegacyClient.ReadMode);
    LegacyClient.ReadHandleNeverCommits(h1.st.client.value.handles, rid, path, answer);
  }

  /** The remote changes whose handlers only touch the cache. */
  datatype Change =
    | CreateDirectory(path: string)
    | DeleteEntry(path: string)
    | MoveEntry(source: string, target: string)
    | CopyEntry(source: string, target: string)
    | CreateFile(path: string)

  /** The paths this generation removes from the cache after each kind of
      change, written against the current generation's kinds of change. */
  function Invalidated(ch: Registry.Change): (ps: seq<string>)
    ensures forall p :: p in ps ==> p in Registry.Touched(ch)
  {
    match ch
    case DeleteEntry(p) => [p]
    case CreateFile(p) => [p]
    case MoveEntry(s, t) => [s, t]
    case CopyEntry(s, t) => [s, t]
    case CreateDirectory(_) => []
    case WriteFile(_) => []
    case Truncate(_) => []
  }

  function AsChange(ch: Change): Registry.Change
  {
    match ch
    case CreateDirectory(p) => Registry.CreateDirectory(p)
    case DeleteEntry(p) => Registry.DeleteEntry(p)
    case MoveEntry(s, t) => Registry.MoveEntry(s, t)
    case CopyEntry(s, t) => Registry.CopyEntry(s, t)
    case CreateFile(p) => Registry.CreateFile(p)
  }

  /** The two generations invalidate the same paths after a delete, a file
      creation, a move and a copy; this one invalidates nothing after a
      directory creation, a write or a truncate, where the current one
      invalidates the touched path. */
  lemma InvalidationCompared(ch: Registry.Change)
    ensures (ch.CreateDirectory? || ch.WriteFile? || ch.Truncate?) <==> Invalidated(ch) == []
    ensures !(ch.CreateDirectory? || ch.WriteFile? || ch.Truncate?) ==> Invalidated(ch) == Registry.Touched(ch)
  {
  }

  /** `onCreateDirectoryRequested` and its siblings: after the change has
      succeeded, the invalidated paths are removed from the cache. The change
      itself is the server's business: its outcome is the input. */
  function ChangeRequested(st: State, ch: Change, answer: HttpFetcher.Response<()>): (h: Handled)
    ensures h.calls == []
    ensures answer.Done? ==> h == Handled(st.(cache := Registry.RemoveAll(st.cache, Invalidated(AsChange(ch)))), [], Some(Ok(Nothing)))
    ensures answer.HttpError? && answer.status == 416 ==>
      h == Handled(st.(cache := Registry.RemoveAll(st.cache, Invalidated(AsChange(ch)))), [], Some(Ok(Nothing)))
    ensures answer.HttpError? && answer.status == 401 ==> h == Handled(DoUnmount(st, false), [], Some(Err(InvalidOperation)))
    ensures answer.HttpError? && answer.status !in {401, 416} ==> h.st == st && h.reply.Some? && h.reply.value.Err?
  {
    var success := st.(cache := Registry.RemoveAll(st.cache, Invalidated(AsChange(ch))));
    Conclude(st, success, [], Unit(Some(LegacyClient.Deliver(answer))))
  }

  /** `onWriteFileRequested`: the open file's path and the client's upload;
      the cache is left as it was. */
  function WriteFileRequested(st: State, rid: int, data: Bytes, offset: int,
                              answers: seq<HttpFetcher.Response<string>>): (h: Handled)
    requires st.client.Some?
    ensures h.st.cache == st.cache
    ensures h.calls == LegacyClient.WriteFile(st.client.value.handles, rid, PathOf(st, rid), data, offset, answers).calls
    ensures rid !in st.client.value.handles ==> h == Handled(st, [], None)
    ensures h.reply.Some? && h.reply.value.Ok? ==> h.reply.value.value == Nothing
  {
    var o := LegacyClient.WriteFile(st.client.value.handles, rid, PathOf(st, rid), data, offset, answers);
    Conclude(WithHandles(st, o.handles), WithHandles(st, o.handles), o.calls, Unit(o.reply))
  }

  /** `onTruncateRequested`: the client's truncate; the cache is left as it
      was. */
  function TruncateRequested(st: State, path: string, length: int, download: HttpFetcher.Response<Bytes>,
                             answers: seq<HttpFetcher.Response<string>>): (h: Handled)
    requires st.client.Some?
    ensures h.st.cache == st.cache
    ensures h.calls == LegacyClient.Truncate(st.client.value.handles, path, length, download, answers).calls
    ensures h.reply.Some? && h.reply.value.Ok? ==> h.reply.value.value == Nothing
  {
    var o := LegacyClient.Truncate(st.client.value.handles, path, length, download, answers);
    Conclude(WithHandles(st, o.handles), WithHandles(st, o.handles), o.calls, Unit(o.reply))
  }

  /** A write does not invalidate: a stat of the written file that was
      served from the cache before is still served, with the same (now
      stale) metadata, whereas the current generation forces a fetch. */
  lemma WriteKeepsStaleEntry(st: State, rid: int, data: Bytes, offset: int, answers: seq<HttpFetcher.Response<string>>,
                             now: int, answer: HttpFetcher.Response<LegacyClient.Entry>, thumb: HttpFetcher.Response<string>)
    requires st.client.Some? && MetadataCache.Get(st.cache, PathOf(st, rid)).Hit?
    ensures var h1 := WriteFileRequested(st, rid, data, offset, answers);
      var h2 := GetMetadataRequested(h1.st, PathOf(st, rid), false, now, answer, thumb);
      h2.calls == [] && h2.reply == Some(Ok(Entry(MetadataCache.Get(st.cache, PathOf(st, rid)).metadata)))
  {
  }

  // ---------------------------------------------------------------------
  // Events

  datatype Event =
    | UnmountEvent(revoked: bool)
    | ReadDirectoryEvent(path: string, listing: HttpFetcher.Response<LegacyClient.Listing>)
    | GetMetadataEvent(path: string, thumbnail: bool, now: int,
                       entry: HttpFetcher.Response<LegacyClient.Entry>, image: HttpFetcher.Response<string>)
    | OpenFileEvent(rid: int, path: string, mode: LegacyClient.Mode)
    | CloseFileEvent(rid: int, commit: Option<HttpFetcher.Response<()>>)
    | ChangeEvent(change: Change, outcome: HttpFetcher.Response<()>)
    | WriteFileEvent(rid: int, data: Bytes, offset: int, answers: seq<HttpFetcher.Response<string>>)
    | TruncateEvent(path: string, length: int, download: HttpFetcher.Response<Bytes>, answers: seq<HttpFetcher.Response<string>>)

  /** The handler of one event, run with a client in place. */
  function Dispatch(st: State, ev: Event): (h: Handled)
    requires st.client.Some?
    ensures ev.UnmountEvent? ==> h == Handled(DoUnmount(st, ev.revoked), [], Some(Ok(Nothing)))
  {
    match ev
    case UnmountEvent(revoked) => Handled(DoUnmount(st, revoked), [], Some(Ok(Nothing)))
    case ReadDirectoryEvent(path, listing) => ReadDirectoryRequested(st, path, listing)
    case GetMetadataEvent(path, thumbnail, now, entry, image) => GetMetadataRequested(st, path, thumbnail, now, entry, image)
    case OpenFileEvent(rid, path, mode) => OpenFileRequested(st, rid, path, mode)
    case CloseFileEvent(rid, commit) => CloseFileRequested(st, rid, commit)
    case ChangeEvent(change, outcome) => ChangeRequested(st, change, outcome)
    case WriteFileEvent(rid, data, offset, answers) => WriteFileRequested(st, rid, data, offset, answers)
    case TruncateEvent(path, length, download, answers) => TruncateRequested(st, path, length, download, answers)
  }

  /** `createEventHandler`: with a client the handler runs at once; without
      one, a resume runs first, and its failure is replied to as `FAILED`
      with no call and no change. */
  function HandleEvent(st: State, ev: Event): (h: Handled)
    ensures st.client.Some? ==> h == Dispatch(st, ev)
    ensures st.client.None? && Truthy(st.stored) ==> h == Dispatch(st.(client := Some(Client(st.stored, map[]))), ev)
    ensures st.client.None? && !Truthy(st.stored) ==> h == Handled(st, [], Some(Err(Failed)))
  {
    var (st1, resumed) := Resume(st);
    if resumed.Ok? then Dispatch(st1, ev) else Handled(st1, [], Some(Err(Failed)))
  }

  /** After an unmount the client stays, so a later event runs its handler
      directly instead of resuming, even though no token is stored. */
  lemma UnmountKeepsClient(st: State, revoked: bool, ev: Event)
    requires st.client.Some?
    ensures var h1 := HandleEvent(st, UnmountEvent(revoked));
      && h1.reply == Some(Ok(Nothing)) && !h1.st.mounted && h1.st.stored.None?
      && HandleEvent(h1.st, ev) == Dispatch(h1.st, ev)
  {
  }

  /** A restart (which drops the client) loses the upload records: a write
      to a file opened before it sends nothing and is never answered. */
  lemma RestartForgetsUploads(st: State, rid: int, path: string, data: Bytes, offset: int,
                              answers: seq<HttpFetcher.Response<string>>)
    requires st.client.Some? && Truthy(st.stored)
    ensures var h1 := HandleEvent(st, OpenFileEvent(rid, path, LegacyClient.WriteMode));
      var h2 := HandleEvent(h1.st.(client := None), WriteFileEvent(rid, data, offset, answers));
      h2.calls == [] && h2.reply.None?
  {
  }
}
