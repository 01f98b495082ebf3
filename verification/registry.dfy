/** The multi-tenant registry of the v2 provider: one live client, one
    metadata cache and one watcher set per mounted file system, plus the
    credential store that lets a file system be resumed after the background
    page restarts. The host's mount list and the credential store are part of
    the state; every remote answer is an input. */
module Registry {
  import opened Common
  import opened Strings
  import opened MetadataCache
  import HttpFetcher

  /** The scheme of every file system id. */
  const FILE_SYSTEM_ID: string := "dropboxfs"

  /** The display-name prefix of a mounted file system. */
  const FILE_SYSTEM_NAME: string := "Dropbox"

  const ID_PREFIX: string := FILE_SYSTEM_ID + "://"

  /** `createFileSystemID(uid)`: the id a tenant is mounted, stored and
      unmounted under. */
  function FileSystemId(uid: string): (id: string)
    ensures |id| == |ID_PREFIX| + |uid|
    ensures id[..|ID_PREFIX|] == ID_PREFIX && id[|ID_PREFIX|..] == uid
  {
    ID_PREFIX + uid
  }

  /** The account an id belongs to, for ids of the right form. */
  function UidOf(id: string): Option<string>
  {
    if |id| >= |ID_PREFIX| && id[..|ID_PREFIX|] == ID_PREFIX then Some(id[|ID_PREFIX|..]) else None
  }

  /** Reading the account back from its id recovers it. */
  lemma UidRoundTrip(uid: string)
    ensures UidOf(FileSystemId(uid)) == Some(uid)
  {
  }

  /** Distinct accounts never share a file system id. */
  lemma FileSystemIdInjective(a: string, b: string)
    requires FileSystemId(a) == FileSystemId(b)
    ensures a == b
  {
    UidRoundTrip(a);
    UidRoundTrip(b);
  }

  // ---------------------------------------------------------------------
  // State

  /** A stored credential: the token and the account it was issued for. */
  datatype Credential = Credential(accessToken: string, uid: string)

  /** A live client: the token it sends and the account it acts for. */
  datatype Session = Session(accessToken: string, uid: string)

  datatype State = State(
    clients: map<string, Session>,
    caches: map<string, Cache>,
    watchers: map<string, set<string>>,
    credentials: map<string, Credential>,
    mounted: set<string>)

  /** Every client and every credential is filed under its own account's id. */
  predicate Keyed(st: State)
  {
    && (forall id :: id in st.clients ==> id == FileSystemId(st.clients[id].uid))
    && (forall id :: id in st.credentials ==> id == FileSystemId(st.credentials[id].uid))
  }

  /** Nothing is stored for `id` besides what `st` already held. */
  ghost predicate OthersUnchanged(st: State, st': State, id: string)
  {
    && (forall k :: k != id ==> (k in st'.clients <==> k in st.clients))
    && (forall k :: k != id && k in st.clients ==> st'.clients[k] == st.clients[k])
    && (forall k :: k != id ==> (k in st'.caches <==> k in st.caches))
    && (forall k :: k != id && k in st.caches ==> st'.caches[k] == st.caches[k])
    && (forall k :: k != id ==> (k in st'.watchers <==> k in st.watchers))
    && (forall k :: k != id && k in st.watchers ==> st'.watchers[k] == st.watchers[k])
    && (forall k :: k != id ==> (k in st'.credentials <==> k in st.credentials))
    && (forall k :: k != id && k in st.credentials ==> st'.credentials[k] == st.credentials[k])
    && (forall k :: k != id ==> (k in st'.mounted <==> k in st.mounted))
  }

  // ---------------------------------------------------------------------
  // mount

  /** The account `getUserInfo` reports. */
  datatype UserInfo = UserInfo(uid: string, displayName: string)

  /** What is asked of the host's mount call. `openedFilesLimit` is `None`
      for a setting that is not plain decimal digits. */
  datatype MountOptions = MountOptions(fileSystemId: string, displayName: string, writable: bool, openedFilesLimit: Option<int>)

  /** `Number(settings.openedFilesLimit || '10')`, for settings written as
      plain decimal digits; other settings are not modelled and give `None`. */
  function OpenedFilesLimit(setting: Option<string>): (n: Option<int>)
    ensures !Truthy(setting) ==> n == Some(10)
    ensures n.Some? ==> n.value >= 0
  {
    if !Truthy(setting) then Some(10)
    else if AllDigits(setting.value, 10) then Some(ParseBase(setting.value, 10))
    else None
  }

  /** A limit the settings dialog stores as its decimal text is read back
      unchanged. */
  lemma OpenedFilesLimitRoundTrip(k: nat)
    ensures OpenedFilesLimit(Some(IntToString(k))) == Some(k)
  {
  }

  /** The outcome of `mount`: the state after it, the reply, and the mount
      request made of the host, if any. */
  datatype Mounted = Mounted(st: State, reply: Reply<()>, request: Option<MountOptions>)

  /** `mount`: authorize, identify the account, refuse an id the host already
      has mounted, then install the client, mount, and store the credential.
      Any failure leaves everything as it was. */
  function Mount(st: State, token: Reply<string>, info: Reply<UserInfo>, setting: Option<string>): (m: Mounted)
    ensures m.reply.Ok? <==> token.Ok? && info.Ok? && FileSystemId(info.value.uid) !in st.mounted
    ensures m.reply.Err? ==> m.st == st && m.request.None?
    ensures token.Err? ==> m.reply == Err(token.code)
    ensures token.Ok? && info.Err? ==> m.reply == Err(info.code)
    ensures token.Ok? && info.Ok? && FileSystemId(info.value.uid) in st.mounted ==> m.reply == Err(AlreadyMounted)
    ensures m.reply.Ok? ==>
      var id := FileSystemId(info.value.uid);
      && m.st.clients == st.clients[id := Session(token.value, info.value.uid)]
      && m.st.credentials == st.credentials[id := Credential(token.value, info.value.uid)]
      && m.st.mounted == st.mounted + {id}
      && m.st.caches == st.caches && m.st.watchers == st.watchers
      && m.request == Some(MountOptions(id, FILE_SYSTEM_NAME + " (" + info.value.displayName + ")", true, OpenedFilesLimit(setting)))
    ensures Keyed(st) ==> Keyed(m.st)
  {
    match token
    case Err(code) => Mounted(st, Err(code), None)
    case Ok(accessToken) =>
      match info
      case Err(code) => Mounted(st, Err(code), None)
      case Ok(user) =>
        var id := FileSystemId(user.uid);
        if id in st.mounted then Mounted(st, Err(AlreadyMounted), None)
        else
          var st' := st.(
            clients := st.clients[id := Session(accessToken, user.uid)],
            credentials := st.credentials[id := Credential(accessToken, user.uid)],
            mounted := st.mounted + {id});
          Mounted(st', Ok(()), Some(MountOptions(id, FILE_SYSTEM_NAME + " (" + user.displayName + ")", true, OpenedFilesLimit(setting))))
  }

  /** Mounting the same account twice fails the second time and changes
      nothing. */
  lemma MountTwice(st: State, token: string, token2: string, user: UserInfo, setting: Option<string>)
    ensures var m := Mount(st, Ok(token), Ok(user), setting);
      var m2 := Mount(m.st, Ok(token2), Ok(user), setting);
      m2.reply == Err(AlreadyMounted) && m2.st == m.st
  {
  }

  // ---------------------------------------------------------------------
  // resume and unmount

  /** `resume(id)`: a client is rebuilt from the stored credential, or the
      request fails with `CREDENTIAL_NOT_FOUND` and nothing changes. */
  function Resume(st: State, id: string): (r: (State, Reply<()>))
    ensures r.1.Ok? <==> id in st.credentials
    ensures r.1.Err? ==> r.0 == st && r.1 == Err(CredentialNotFound)
    ensures r.1.Ok? ==>
      r.0 == st.(clients := st.clients[id := Session(st.credentials[id].accessToken, st.credentials[id].uid)])
    ensures Keyed(st) ==> Keyed(r.0)
  {
    if id in st.credentials then
      var c := st.credentials[id];
      (st.(clients := st.clients[id := Session(c.accessToken, c.uid)]), Ok(()))
    else (st, Err(CredentialNotFound))
  }

  /** `_doUnmount(uid)`: the account's credential, client, cache and watcher
      set are deleted and the host unmounts it. */
  function DoUnmount(st: State, uid: string): (st': State)
    ensures var id := FileSystemId(uid);
      && st'.clients.Keys == st.clients.Keys - {id}
      && st'.caches.Keys == st.caches.Keys - {id}
      && st'.watchers.Keys == st.watchers.Keys - {id}
      && st'.credentials.Keys == st.credentials.Keys - {id}
      && st'.mounted == st.mounted - {id}
      && OthersUnchanged(st, st', id)
    ensures Keyed(st) ==> Keyed(st')
  {
    var id := FileSystemId(uid);
    State(st.clients - {id}, st.caches - {id}, st.watchers - {id}, st.credentials - {id}, st.mounted - {id})
  }

  /** After an unmount the id can be mounted again. */
  lemma UnmountThenMount(st: State, token: string, user: UserInfo, setting: Option<string>)
    ensures Mount(DoUnmount(st, user.uid), Ok(token), Ok(user), setting).reply == Ok(())
  {
  }

  /** The host's unmount request: resume if needed (a failed resume fails the
      request and changes nothing), then unmount the client's account. */
  function UnmountRequested(st: State, id: string): (r: (State, Reply<()>))
    ensures r.1.Ok? <==> id in st.clients || id in st.credentials
    ensures r.1.Err? ==> r == (st, Err(Failed))
    ensures Keyed(st) && r.1.Ok? ==>
      && id !in r.0.clients && id !in r.0.credentials && id !in r.0.caches
      && id !in r.0.watchers && id !in r.0.mounted
      && OthersUnchanged(st, r.0, id)
  {
    if id in st.clients then (DoUnmount(st, st.clients[id].uid), Ok(()))
    else
      var (resumed, reply) := Resume(st, id);
      if reply.Err? then (st, Err(Failed))
      else (DoUnmount(resumed, resumed.clients[id].uid), Ok(()))
  }

  /** Nothing of the file system `id` is left: no client, cache, watcher
      set, credential or mount. */
  predicate Gone(st: State, id: string)
  {
    id !in st.clients && id !in st.caches && id !in st.watchers && id !in st.credentials && id !in st.mounted
  }

  /** `unmountByAccessTokenExpired`: a request answered with 401 unmounts
      the account of the client that sent it. The source only requests that
      unmount and replies without waiting for it; the model applies it in the
      same step as the reply. */
  function Expire(st: State, id: string): (st': State)
    requires id in st.clients
    ensures Keyed(st) ==>
      Gone(st', id) && OthersUnchanged(st, st', id)
    ensures Keyed(st) ==> Keyed(st')
  {
    DoUnmount(st, st.clients[id].uid)
  }

  // ---------------------------------------------------------------------
  // The event wrapper

  /** `createEventHandler`'s preamble: use the live client, or resume one.
      When resuming fails the credential store is read again (`reread`, the
      store's answer at that moment); a credential found then is purged by an
      unmount, and the request fails either way. */
  function EnsureClient(st: State, id: string, reread: Option<Credential>): (r: (State, Reply<()>))
    ensures id in st.clients ==> r == (st, Ok(()))
    ensures r.1.Ok? <==> id in st.clients || id in st.credentials
    ensures id !in st.clients && id in st.credentials ==> r == Resume(st, id)
    ensures r.1.Err? ==> r.1 == Err(Failed)
    ensures r.1.Err? && reread.None? ==> r.0 == st
    ensures r.1.Err? && reread.Some? ==> r.0 == DoUnmount(st, reread.value.uid)
    ensures Keyed(st) ==> Keyed(r.0)
  {
    if id in st.clients then (st, Ok(()))
    else
      var (resumed, reply) := Resume(st, id);
      if reply.Ok? then (resumed, Ok(()))
      else if reread.Some? then (DoUnmount(st, reread.value.uid), Err(Failed))
      else (st, Err(Failed))
  }

  /** Without another writer between the two reads of the credential store,
      the purge never happens: the second read finds nothing either, and a
      failed request leaves every map as it was. */
  lemma ResumeFailureLeavesState(st: State, id: string)
    requires id !in st.clients && id !in st.credentials
    ensures EnsureClient(st, id, None) == (st, Err(Failed))
  {
  }

  // ---------------------------------------------------------------------
  // Metadata trimming

  /** The metadata fields the host asked for (each flag is the truthiness of
      the request option). */
  datatype Fields = Fields(isDirectory: bool, name: bool, size: bool, modificationTime: bool, thumbnail: bool)

  /** A reply record: each field is present or absent; a present thumbnail
      may itself be undefined. */
  datatype Trimmed = Trimmed(
    isDirectory: Option<bool>,
    name: Option<string>,
    size: Option<int>,
    modificationTime: Option<Time>,
    thumbnail: Option<Option<string>>)

  /** `trimMetadata`: exactly the requested fields, copied unchanged. */
  function Trim(f: Fields, m: Metadata): (t: Trimmed)
    ensures t.isDirectory.Some? <==> f.isDirectory
    ensures t.name.Some? <==> f.name
    ensures t.size.Some? <==> f.size
    ensures t.modificationTime.Some? <==> f.modificationTime
    ensures t.thumbnail.Some? <==> f.thumbnail
    ensures t.isDirectory.Some? ==> t.isDirectory.value == m.isDirectory
    ensures t.name.Some? ==> t.name.value == m.name
    ensures t.size.Some? ==> t.size.value == m.size
    ensures t.modificationTime.Some? ==> t.modificationTime.value == m.modificationTime
    ensures t.thumbnail.Some? ==> t.thumbnail.value == m.thumbnail
  {
    Trimmed(
      if f.isDirectory then Some(m.isDirectory) else None,
      if f.name then Some(m.name) else None,
      if f.size then Some(m.size) else None,
      if f.modificationTime then Some(m.modificationTime) else None,
      if f.thumbnail then Some(m.thumbnail) else None)
  }

  const ALL_FIELDS: Fields := Fields(true, true, true, true, true)

  /** Rebuilds metadata from a record holding every field; the MIME type is
      never part of a reply. */
  function Untrim(t: Trimmed): Option<Metadata>
  {
    if t.isDirectory.Some? && t.name.Some? && t.size.Some? && t.modificationTime.Some? && t.thumbnail.Some? then
      Some(Metadata(t.isDirectory.value, t.name.value, t.size.value, t.modificationTime.value, None, t.thumbnail.value))
    else None
  }

  /** With every field requested, trimming loses nothing but the MIME type. */
  lemma TrimAllLossless(m: Metadata)
    ensures Untrim(Trim(ALL_FIELDS, m)) == Some(m.(mimeType := None))
  {
  }

  /** `m` and `m'` carry the same value in every field `f` requests. */
  predicate AgreesOn(f: Fields, m: Metadata, m': Metadata)
  {
    && (f.isDirectory ==> m'.isDirectory == m.isDirectory)
    && (f.name ==> m'.name == m.name)
    && (f.size ==> m'.size == m.size)
    && (f.modificationTime ==> m'.modificationTime == m.modificationTime)
    && (f.thumbnail ==> m'.thumbnail == m.thumbnail)
  }

  /** An entry rebuilt from a trimmed record: the present fields from the
      record, every other field from `base`. */
  function Refill(t: Trimmed, base: Metadata): (m: Metadata)
    ensures forall f :: Trim(f, base) == t ==> m == base
  {
    Metadata(
      if t.isDirectory.Some? then t.isDirectory.value else base.isDirectory,
      if t.name.Some? then t.name.value else base.name,
      if t.size.Some? then t.size.value else base.size,
      if t.modificationTime.Some? then t.modificationTime.value else base.modificationTime,
      base.mimeType,
      if t.thumbnail.Some? then t.thumbnail.value else base.thumbnail)
  }

  /** For every request, a trimmed record depends only on the requested
      fields, so trimming an entry rebuilt from a trimmed record, whatever
      fills its missing fields, gives the same record again. */
  lemma TrimIdempotent(f: Fields, m: Metadata, m': Metadata, base: Metadata)
    ensures AgreesOn(f, m, m') <==> Trim(f, m') == Trim(f, m)
    ensures Trim(f, Refill(Trim(f, m), base)) == Trim(f, m)
    ensures f == ALL_FIELDS ==> Trim(f, Untrim(Trim(f, m)).value) == Trim(f, m)
  {
  }

  // ---------------------------------------------------------------------
  // Handlers that use the metadata cache

  /** `getMetadataCache(id)`: the tenant's cache, created empty on first use. */
  function CacheOf(st: State, id: string): Cache
  {
    if id in st.caches then st.caches[id] else map[]
  }

  function WithCache(st: State, id: string, c: Cache): (st': State)
    ensures st'.caches == st.caches[id := c]
    ensures st'.clients == st.clients && st'.watchers == st.watchers
    ensures st'.credentials == st.credentials && st'.mounted == st.mounted
  {
    st.(caches := st.caches[id := c])
  }

  /** `onReadDirectoryRequested`: a listing is stored whole in the cache
      under the requested path, and replied to trimmed entry by entry. An
      `INVALID_OPERATION` answer (the executor's reply to a 401) comes with
      the account's unmount. */
  function ReadDirectoryRequested(st: State, id: string, path: string, f: Fields, answer: Reply<seq<Metadata>>): (r: (State, Reply<seq<Trimmed>>))
    requires id in st.clients
    ensures answer.Err? && answer.code != InvalidOperation ==> r == (st, Err(answer.code))
    ensures answer == Err(InvalidOperation) ==> r == (Expire(st, id), Err(InvalidOperation))
    ensures answer.Ok? ==>
      && r.0 == WithCache(st, id, Put(CacheOf(st, id), path, answer.value))
      && r.1.Ok? && |r.1.value| == |answer.value|
      && (forall i :: 0 <= i < |answer.value| ==> r.1.value[i] == Trim(f, answer.value[i]))
  {
    match answer
    case Err(code) => (if code == InvalidOperation then Expire(st, id) else st, Err(code))
    case Ok(list) =>
      (WithCache(st, id, Put(CacheOf(st, id), path, list)), Ok(seq(|list|, i requires 0 <= i < |list| => Trim(f, list[i]))))
  }

  /** Whether a stat can be answered from the cache: the parent is listed,
      the entry is in it, and no thumbnail is asked for. */
  predicate ServedFromCache(c: Cache, path: string, f: Fields)
  {
    Get(c, path).Hit? && !f.thumbnail
  }

  /** `onGetMetadataRequested`: served from the cache when possible,
      otherwise by the remote stat (`fetch`). The tenant's cache is created
      if it did not exist. The flag says whether the remote stat was made. */
  function GetMetadataRequested(st: State, id: string, path: string, f: Fields, fetch: Reply<Metadata>): (r: (State, Reply<Trimmed>, bool))
    requires id in st.clients
    ensures !(r.2 && fetch == Err(InvalidOperation)) ==> r.0 == WithCache(st, id, CacheOf(st, id))
    ensures r.2 && fetch == Err(InvalidOperation) ==> r.0 == Expire(WithCache(st, id, CacheOf(st, id)), id)
    ensures r.2 <==> !ServedFromCache(CacheOf(st, id), path, f)
    ensures !r.2 ==> r.1 == Ok(Trim(f, Get(CacheOf(st, id), path).metadata))
    ensures r.2 && fetch.Ok? ==> r.1 == Ok(Trim(f, fetch.value))
    ensures r.2 && fetch.Err? ==> r.1 == Err(fetch.code)
  {
    var c := CacheOf(st, id);
    var st' := WithCache(st, id, c);
    var look := Get(c, path);
    if look.Hit? && !f.thumbnail then (st', Ok(Trim(f, look.metadata)), false)
    else
      match fetch
      case Ok(m) => (st', Ok(Trim(f, m)), true)
      case Err(code) => (if code == InvalidOperation then Expire(st', id) else st', Err(code), true)
  }

  /** A stat of an entry whose parent was just listed is answered from the
      listing without a remote call, unless a thumbnail is asked for or the
      entry is missing. */
  lemma StatAfterListing(st: State, id: string, path: string, list: seq<Metadata>, f: Fields, fetch: Reply<Metadata>)
    requires id in st.clients && path != "/"
    ensures var (st1, _) := ReadDirectoryRequested(st, id, SplitPath(path).directory, ALL_FIELDS, Ok(list));
      var (_, reply, fetched) := GetMetadataRequested(st1, id, path, f, fetch);
      && (!fetched <==> SplitPath(path).name in Names(list) && !f.thumbnail)
      && (!fetched ==> exists i :: 0 <= i < |list| && LastWithName(list, i) && reply == Ok(Trim(f, list[i])))
  {
    var dir := SplitPath(path).directory;
    var c := Put(CacheOf(st, id), dir, list);
    var st1 := ReadDirectoryRequested(st, id, dir, ALL_FIELDS, Ok(list)).0;
    assert st1 == WithCache(st, id, c);
    assert CacheOf(st1, id) == c;
    GetAfterPut(CacheOf(st, id), list, path);
    var look := Get(c, path);
    var g := GetMetadataRequested(st1, id, path, f, fetch);
    assert !g.2 <==> look.Hit? && !f.thumbnail;
    assert look.Hit? <==> SplitPath(path).name in Names(list);
    if !g.2 {
      assert g.1 == Ok(Trim(f, look.metadata));
      var i :| 0 <= i < |list| && LastWithName(list, i) && look.metadata == list[i];
      assert g.1 == Ok(Trim(f, list[i]));
    }
  }

  /** The changes a handler makes on the remote side. */
  datatype Change =
    | CreateDirectory(path: string)
    | DeleteEntry(path: string)
    | MoveEntry(source: string, target: string)
    | CopyEntry(source: string, target: string)
    | WriteFile(path: string)
    | Truncate(path: string)
    | CreateFile(path: string)

  /** The paths a successful change invalidates: the touched path, or both
      ends of a copy or move. */
  function Touched(ch: Change): seq<string>
  {
    match ch
    case MoveEntry(s, t) => [s, t]
    case CopyEntry(s, t) => [s, t]
    case CreateDirectory(p) => [p]
    case DeleteEntry(p) => [p]
    case WriteFile(p) => [p]
    case Truncate(p) => [p]
    case CreateFile(p) => [p]
  }

  /** No path of `ps` removes the key `k`: it is neither under one of them
      nor the parent listing one of them drops. */
  predicate Untouched(ps: seq<string>, k: string)
  {
    forall i :: 0 <= i < |ps| ==>
      !(ps[i] <= k) && !(MetadataCache.DropsParent(ps[i]) && k == MetadataCache.ParentKey(ps[i]))
  }

  /** `remove` applied to each path in turn. */
  function RemoveAll(c: Cache, ps: seq<string>): (r: Cache)
    ensures forall k :: k in r ==> k in c && r[k] == c[k]
    ensures forall i, k :: 0 <= i < |ps| && ps[i] <= k ==> k !in r
    ensures forall i :: 0 <= i < |ps| && MetadataCache.DropsParent(ps[i]) ==> MetadataCache.ParentKey(ps[i]) !in r
    ensures forall k :: k in c && Untouched(ps, k) ==> k in r
  {
    if |ps| == 0 then c else RemoveAll(Remove(c, ps[0]), ps[1..])
  }

  /** A change handler: on success the touched paths are invalidated; on
      failure the error is passed on and nothing changes, except that an
      expired token unmounts the account. */
  function ChangeRequested(st: State, id: string, ch: Change, answer: Reply<()>): (r: (State, Reply<()>))
    requires id in st.clients
    ensures answer.Err? && answer.code != InvalidOperation ==> r == (st, answer)
    ensures answer == Err(InvalidOperation) ==> r == (Expire(st, id), answer)
    ensures answer.Ok? ==> r == (WithCache(st, id, RemoveAll(CacheOf(st, id), Touched(ch))), Ok(()))
  {
    if answer.Err? then (if answer.code == InvalidOperation then Expire(st, id) else st, answer)
    else (WithCache(st, id, RemoveAll(CacheOf(st, id), Touched(ch))), Ok(()))
  }

  /** After a successful change, a stat of anything inside a touched
      directory goes to the remote side. */
  lemma ChangeForcesFetch(st: State, id: string, ch: Change, i: int, q: string, f: Fields, fetch: Reply<Metadata>)
    requires id in st.clients
    requires 0 <= i < |Touched(ch)| && q != "/" && Touched(ch)[i] <= SplitPath(q).directory
    ensures var (st1, _) := ChangeRequested(st, id, ch, Ok(()));
      GetMetadataRequested(st1, id, q, f, fetch).2
  {
    var c := RemoveAll(CacheOf(st, id), Touched(ch));
    assert SplitPath(q).directory !in c;
  }

  /** A move invalidates its target as well as its source. */
  lemma MoveInvalidatesBoth(st: State, id: string, s: string, t: string)
    requires id in st.clients
    ensures var c := ChangeRequested(st, id, MoveEntry(s, t), Ok(())).0.caches[id];
      s !in c && t !in c
  {
    var ps := Touched(MoveEntry(s, t));
    assert ps[0] <= s && ps[1] <= t;
  }

  // ---------------------------------------------------------------------
  // Watchers

  /** `getWatchers(id)`: the tenant's watched paths, created empty on first
      use. */
  function WatchersOf(st: State, id: string): set<string>
  {
    if id in st.watchers then st.watchers[id] else {}
  }

  function AddWatcher(st: State, id: string, path: string): (st': State)
    ensures st'.watchers == st.watchers[id := WatchersOf(st, id) + {path}]
    ensures st'.clients == st.clients && st'.caches == st.caches
    ensures st'.credentials == st.credentials && st'.mounted == st.mounted
  {
    st.(watchers := st.watchers[id := WatchersOf(st, id) + {path}])
  }

  function RemoveWatcher(st: State, id: string, path: string): (st': State)
    ensures st'.watchers == st.watchers[id := WatchersOf(st, id) - {path}]
    ensures st'.clients == st.clients && st'.caches == st.caches
    ensures st'.credentials == st.credentials && st'.mounted == st.mounted
  {
    st.(watchers := st.watchers[id := WatchersOf(st, id) - {path}])
  }

  /** Adding then removing a watcher leaves the set as it was, unless the
      path was already watched. */
  lemma AddRemoveWatcher(st: State, id: string, path: string)
    requires path !in WatchersOf(st, id)
    ensures WatchersOf(RemoveWatcher(AddWatcher(st, id, path), id, path), id) == WatchersOf(st, id)
  {
  }

  // ---------------------------------------------------------------------
  // Dispatch

  /** The requests that reach this part of the provider, each carrying the
      remote answer it will get. Opening, reading and closing files touch only
      the content side and reply with what it replies. */
  datatype Event =
    | ReadDirectoryEvent(directoryPath: string, fields: Fields, listing: Reply<seq<Metadata>>)
    | GetMetadataEvent(entryPath: string, fields: Fields, fetch: Reply<Metadata>)
    | ChangeEvent(change: Change, answer: Reply<()>)
    | AddWatcherEvent(entryPath: string)
    | RemoveWatcherEvent(entryPath: string)
    | ContentEvent(answer: Reply<()>)

  /** A reply payload. */
  datatype Payload = Entries(list: seq<Trimmed>) | Entry(entry: Trimmed) | Nothing

  /** Runs one handler with a live client. A handler changes only its own
      account's cache and watchers, unless its request met an expired token,
      which leaves nothing of the account. */
  function Dispatch(st: State, id: string, ev: Event): (r: (State, Reply<Payload>))
    requires id in st.clients
    ensures r.1 != Err(InvalidOperation) ==>
      && OthersUnchanged(st, r.0, id)
      && r.0.clients == st.clients && r.0.credentials == st.credentials && r.0.mounted == st.mounted
    ensures Keyed(st) && r.1 == Err(InvalidOperation) ==>
      Gone(r.0, id) && OthersUnchanged(st, r.0, id)
    ensures Keyed(st) ==> Keyed(r.0)
  {
    match ev
    case ReadDirectoryEvent(p, f, listing) =>
      var (st', reply) := ReadDirectoryRequested(st, id, p, f, listing);
      if reply == Err(InvalidOperation) then (st', Err(InvalidOperation))
      else
        OwnSlotsOnly(st, st', id);
        (st', if reply.Ok? then Ok(Entries(reply.value)) else Err(reply.code))
    case GetMetadataEvent(p, f, fetch) =>
      var (st', reply, fetched) := GetMetadataRequested(st, id, p, f, fetch);
      if reply == Err(InvalidOperation) then
        ExpireAfterCache(st, id);
        (st', Err(InvalidOperation))
      else
        OwnSlotsOnly(st, st', id);
        (st', if reply.Ok? then Ok(Entry(reply.value)) else Err(reply.code))
    case ChangeEvent(ch, answer) =>
      var (st', reply) := ChangeRequested(st, id, ch, answer);
      if reply == Err(InvalidOperation) then (st', Err(InvalidOperation))
      else
        OwnSlotsOnly(st, st', id);
        (st', if reply.Ok? then Ok(Nothing) else Err(reply.code))
    case AddWatcherEvent(p) =>
      var st' := AddWatcher(st, id, p);
      OwnSlotsOnly(st, st', id);
      (st', Ok(Nothing))
    case RemoveWatcherEvent(p) =>
      var st' := RemoveWatcher(st, id, p);
      OwnSlotsOnly(st, st', id);
      (st', Ok(Nothing))
    case ContentEvent(answer) =>
      if answer == Err(InvalidOperation) then (Expire(st, id), Err(InvalidOperation))
      else
        OwnSlotsOnly(st, st, id);
        (st, if answer.Ok? then Ok(Nothing) else Err(answer.code))
  }

  /** The empty cache `getMetadataCache` creates before the request does not
      survive the unmount an expired token causes. */
  lemma ExpireAfterCache(st: State, id: string)
    requires id in st.clients
    ensures var st' := Expire(WithCache(st, id, CacheOf(st, id)), id);
      Keyed(st) ==>
        Gone(st', id) && OthersUnchanged(st, st', id) && Keyed(st')
  {
  }

  /** A state that differs from `st` at most in this tenant's cache and
      watcher set leaves every other tenant as it was. */
  lemma OwnSlotsOnly(st: State, st': State, id: string)
    requires st'.clients == st.clients && st'.credentials == st.credentials && st'.mounted == st.mounted
    requires st'.caches == st.caches || (id in st'.caches && st'.caches == st.caches[id := st'.caches[id]])
    requires st'.watchers == st.watchers || (id in st'.watchers && st'.watchers == st.watchers[id := st'.watchers[id]])
    ensures OthersUnchanged(st, st', id)
  {
  }

  /** A wrapped host request: exactly one reply, from the handler when a
      client is live or can be resumed, `FAILED` otherwise. Other tenants are
      untouched as long as every client and credential is filed under its own
      account's id and a re-read credential is filed under this id. */
  function HandleEvent(st: State, id: string, reread: Option<Credential>, ev: Event): (r: (State, Reply<Payload>))
    ensures id in st.clients ==> r == Dispatch(st, id, ev)
    ensures id !in st.clients && id in st.credentials ==> r == Dispatch(Resume(st, id).0, id, ev)
    ensures id !in st.clients && id !in st.credentials ==> r.1 == Err(Failed)
    ensures Keyed(st) ==> Keyed(r.0)
    ensures Keyed(st) && (reread.Some? ==> FileSystemId(reread.value.uid) == id) ==> OthersUnchanged(st, r.0, id)
  {
    var (st1, ready) := EnsureClient(st, id, reread);
    EnsureClientFrame(st, id, reread);
    if ready.Err? then (st1, Err(Failed))
    else
      var r := Dispatch(st1, id, ev);
      OthersTrans(st, st1, r.0, id);
      r
  }

  /** The preamble touches no other tenant when every credential, the
      re-read one included, is filed under its own account's id. */
  lemma EnsureClientFrame(st: State, id: string, reread: Option<Credential>)
    ensures Keyed(st) && (reread.Some? ==> FileSystemId(reread.value.uid) == id) ==>
      OthersUnchanged(st, EnsureClient(st, id, reread).0, id)
  {
    if id !in st.clients && id in st.credentials {
      ResumeFrame(st, id);
    }
  }

  /** A resume adds only this tenant's client. */
  lemma ResumeFrame(st: State, id: string)
    requires id in st.credentials
    ensures OthersUnchanged(st, Resume(st, id).0, id)
  {
    var st' := Resume(st, id).0;
    assert st'.clients == st.clients[id := st'.clients[id]];
  }

  lemma OthersTrans(a: State, b: State, c: State, id: string)
    ensures OthersUnchanged(a, b, id) && OthersUnchanged(b, c, id) ==> OthersUnchanged(a, c, id)
  {
  }

  /** A listing or a change whose request is answered with 401 is
      delivered as `INVALID_OPERATION` together with the executor's unmount,
      and afterwards nothing of the account is left while every other
      account is as it was. */
  lemma ExpiredTokenUnmounts(st: State, id: string, path: string, f: Fields, ch: Change, retryAfter: Option<string>)
    requires Keyed(st) && id in st.clients
    ensures var listing := HttpFetcher.Classify(HttpFetcher.HttpError(401, retryAfter), []);
      var r := Dispatch(st, id, ReadDirectoryEvent(path, f, listing.reply));
      && listing.Deliver? && listing.unmount
      && r.1 == Err(InvalidOperation) && Gone(r.0, id) && OthersUnchanged(st, r.0, id)
    ensures var change := HttpFetcher.Classify(HttpFetcher.HttpError(401, retryAfter), ());
      var r := Dispatch(st, id, ChangeEvent(ch, change.reply));
      && change.Deliver? && change.unmount
      && r.1 == Err(InvalidOperation) && Gone(r.0, id) && OthersUnchanged(st, r.0, id)
  {
  }
}
