/** The per-tenant metadata cache: a map from a directory path to the listing
    last fetched for it, keyed by entry name. It answers stat requests without
    a remote call and is invalidated by prefix when entries change. */
module MetadataCache {
  import opened Common
  import opened Strings

  /** One directory's listing: entry name to metadata. */
  type Listing = map<string, Metadata>

  /** Directory path to listing. */
  type Cache = map<string, Listing>

  /** The names occurring in a list of entries. */
  function Names(list: seq<Metadata>): set<string>
  {
    set i | 0 <= i < |list| :: list[i].name
  }

  /** Entry `i` is the last one in `list` carrying its name. */
  predicate LastWithName(list: seq<Metadata>, i: int)
    requires 0 <= i < |list|
  {
    forall j :: i < j < |list| ==> list[j].name != list[i].name
  }

  /** The listing `put` builds, entry by entry in list order. */
  function ListingOf(list: seq<Metadata>): (l: Listing)
    ensures l.Keys == Names(list)
    ensures forall i :: 0 <= i < |list| && LastWithName(list, i) ==> l[list[i].name] == list[i]
    decreases |list|
  {
    if |list| == 0 then map[]
    else
      var init := list[..|list|-1];
      var last := list[|list|-1];
      var l := ListingOf(init)[last.name := last];
      NamesSnoc(list);
      LastWithNameInit(list);
      l
  }

  /** The names of a non-empty list: those of all but the last entry, and the
      last entry's. */
  lemma NamesSnoc(list: seq<Metadata>)
    requires |list| > 0
    ensures Names(list) == Names(list[..|list|-1]) + {list[|list|-1].name}
  {
    var init := list[..|list|-1];
    forall n | n in Names(list) ensures n in Names(init) + {list[|list|-1].name} {
      var i :| 0 <= i < |list| && list[i].name == n;
      if i < |list| - 1 { assert init[i] == list[i]; }
    }
    forall n | n in Names(init) ensures n in Names(list) {
      var i :| 0 <= i < |init| && init[i].name == n;
      assert list[i] == init[i];
    }
  }

  /** An entry that is last with its name, other than the final one, is last
      with its name among all but the final entry, and the final entry has a
      different name. */
  lemma LastWithNameInit(list: seq<Metadata>)
    requires |list| > 0
    ensures forall i :: 0 <= i < |list| - 1 && LastWithName(list, i) ==>
      LastWithName(list[..|list|-1], i) && list[i].name != list[|list|-1].name
  {
    forall i | 0 <= i < |list| - 1 && LastWithName(list, i)
      ensures LastWithName(list[..|list|-1], i) && list[i].name != list[|list|-1].name
    {
      assert list[|list|-1].name != list[i].name;
    }
  }

  /** `put(directoryPath, metadataList)`: the directory's listing is replaced by
      exactly the given entries (a later duplicate name wins), and no other
      directory changes. */
  function Put(c: Cache, dir: string, list: seq<Metadata>): (r: Cache)
    ensures r.Keys == c.Keys + {dir}
    ensures r[dir].Keys == Names(list)
    ensures forall i :: 0 <= i < |list| && LastWithName(list, i) ==> r[dir][list[i].name] == list[i]
    ensures forall k :: k in c && k != dir ==> r[k] == c[k]
  {
    c[dir := ListingOf(list)]
  }

  /** `dir(directoryPath)`: the cached listing, if any. */
  function Dir(c: Cache, dir: string): Option<Listing>
  {
    if dir in c then Some(c[dir]) else None
  }

  /** The two halves `get` and `remove` cut a path into at its last `/`. */
  datatype PathParts = PathParts(directory: string, name: string)

  /** Cuts at the last `/`: a top-level path has parent `/`; a path with no
      `/` at all has parent `""` (what `substring(0, -1)` yields). */
  function SplitPath(p: string): (parts: PathParts)
    ensures '/' !in parts.name
    ensures '/' !in p ==> parts == PathParts("", p)
    ensures LastIndexOf(p, '/') == 0 ==> parts.directory == "/" && p == "/" + parts.name
    ensures LastIndexOf(p, '/') > 0 ==> p == parts.directory + "/" + parts.name && |parts.directory| > 0
  {
    var pos := LastIndexOf(p, '/');
    if pos == 0 then
      assert p == "/" + p[1..];
      PathParts("/", p[1..])
    else if pos == -1 then
      PathParts("", p)
    else
      assert p == p[..pos] + "/" + p[pos+1..];
      PathParts(p[..pos], p[pos+1..])
  }

  /** What `get` reports about one path. */
  datatype Lookup =
    | NeedFetch            // the root: never answered from the cache
    | Hit(metadata: Metadata)  // parent listed, entry present
    | Absent               // parent listed, entry missing
    | Unknown              // parent not listed
  {
    predicate DirectoryExists() { Hit? || Absent? }
    predicate FileExists() { Hit? }
  }

  /** `get(entryPath)`. */
  function Get(c: Cache, p: string): (r: Lookup)
    ensures p == "/" ==> r == NeedFetch
    ensures p != "/" ==> !r.NeedFetch?
    ensures r.FileExists() <==>
      p != "/" && SplitPath(p).directory in c && SplitPath(p).name in c[SplitPath(p).directory]
    ensures r.Hit? ==> r.metadata == c[SplitPath(p).directory][SplitPath(p).name]
    ensures r.DirectoryExists() <==> p != "/" && SplitPath(p).directory in c
  {
    if p == "/" then NeedFetch
    else
      var parts := SplitPath(p);
      if parts.directory in c then
        var entries := c[parts.directory];
        if parts.name in entries then Hit(entries[parts.name]) else Absent
      else Unknown
  }

  /** The key `remove` drops besides the prefixed ones: the text before the last
      `/`, or `""` when there is none (only when that `/` is not at index 0). */
  function ParentKey(p: string): string
  {
    var pos := LastIndexOf(p, '/');
    if pos == -1 then "" else p[..pos]
  }

  predicate DropsParent(p: string)
  {
    LastIndexOf(p, '/') != 0
  }

  /** `remove(entryPath)`: drops every listing whose key has `entryPath` as a
      raw string prefix, and the parent listing unless the entry is top-level.
      Every surviving listing is unchanged. */
  function Remove(c: Cache, p: string): (r: Cache)
    ensures forall k :: k in r <==> k in c && !(p <= k) && !(DropsParent(p) && k == ParentKey(p))
    ensures forall k :: k in r ==> r[k] == c[k]
  {
    var kept := map k | k in c && !(p <= k) :: c[k];
    if DropsParent(p) then kept - {ParentKey(p)} else kept
  }

  // ---------------------------------------------------------------------
  // Properties relating the operations

  /** Looking up any path right after its parent was listed reports exactly
      what the listing said: the last entry of that name, or absence. */
  lemma GetAfterPut(c: Cache, list: seq<Metadata>, p: string)
    requires p != "/"
    ensures var r := Get(Put(c, SplitPath(p).directory, list), p);
      && r.DirectoryExists()
      && (r.FileExists() <==> SplitPath(p).name in Names(list))
      && (r.Hit? ==> exists i :: 0 <= i < |list| && list[i].name == SplitPath(p).name
                                && LastWithName(list, i) && r.metadata == list[i])
  {
    var parts := SplitPath(p);
    var r := Get(Put(c, parts.directory, list), p);
    if r.Hit? {
      var l := ListingOf(list);
      var i :| 0 <= i < |list| && list[i].name == parts.name;
      var k := LastOf(list, i);
      assert r.metadata == list[k];
    }
  }

  /** The last index carrying the name of entry `i`. */
  lemma LastOf(list: seq<Metadata>, i: int) returns (k: int)
    requires 0 <= i < |list|
    ensures i <= k < |list| && list[k].name == list[i].name && LastWithName(list, k)
    decreases |list| - i
  {
    if LastWithName(list, i) {
      k := i;
    } else {
      var j :| i < j < |list| && list[j].name == list[i].name;
      k := LastOf(list, j);
    }
  }

  /** After `remove(p)`, any path whose parent directory lies under `p` (by
      string prefix) is reported as not cached, which forces a remote fetch. */
  lemma RemoveForcesFetch(c: Cache, p: string, q: string)
    requires q != "/"
    requires p <= SplitPath(q).directory
    ensures Get(Remove(c, p), q) == Unknown
  {
  }

  /** Deleting `/a/b` hides `/a/b/c` even though only `/a/b`'s parent and
      subtree were touched. */
  lemma RemoveSubtreeExample(c: Cache)
    ensures Get(Remove(c, "/a/b"), "/a/b/c") == Unknown
  {
    assert LastIndexOf("/a/b/c", '/') == 4;
    assert SplitPath("/a/b/c").directory == "/a/b";
    RemoveForcesFetch(c, "/a/b", "/a/b/c");
  }

  /** Removing a top-level entry leaves the root listing in place, while a
      deeper entry's parent listing is dropped. */
  lemma RemoveParentRule(c: Cache, p: string)
    requires |p| >= 2 && p[0] == '/'
    ensures LastIndexOf(p, '/') == 0 && "/" in c ==> "/" in Remove(c, p) && Remove(c, p)["/"] == c["/"]
    ensures LastIndexOf(p, '/') > 0 ==> SplitPath(p).directory !in Remove(c, p)
  {
    if LastIndexOf(p, '/') == 0 {
      assert !(p <= "/");
    }
  }

  /** Invalidation is idempotent. */
  lemma RemoveIdempotent(c: Cache, p: string)
    ensures Remove(Remove(c, p), p) == Remove(c, p)
  {
  }
}
