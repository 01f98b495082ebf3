/** The change poller behind directory watching: a fresh listing of a
    watched directory is compared, by name, with the listing the cache held,
    the differences are reported to the host, and the fresh listing replaces
    the cached one. */
module Poller {
  import opened Common
  import opened MetadataCache
  import opened Registry

  /** A listed entry differs from its cached namesake unless both are
      directories, or type, size and modification instant all agree. */
  predicate Differs(current: Metadata, cached: Metadata)
  {
    !(current.isDirectory && cached.isDirectory)
    && !(current.isDirectory == cached.isDirectory && current.size == cached.size
         && SameTime(current.modificationTime, cached.modificationTime))
  }

  /** A listed entry is reported as changed: new, or different. */
  predicate Reported(current: Metadata, cached: Listing)
  {
    current.name !in cached || Differs(current, cached[current.name])
  }

  /** The `CHANGED` notices, one per reported entry in listing order. */
  function ChangedNames(current: seq<Metadata>, cached: Listing): (cs: seq<string>)
    ensures |cs| <= |current|
    ensures forall n :: n in cs <==> exists i :: 0 <= i < |current| && current[i].name == n && Reported(current[i], cached)
  {
    if |current| == 0 then []
    else
      var rest := ChangedNames(current[1..], cached);
      if Reported(current[0], cached) then [current[0].name] + rest else rest
  }

  /** The notices keep listing order: those for a listing split in two are
      the notices for the first part followed by those for the second, and a
      single entry gives one notice exactly when it is reported. */
  lemma {:induction false} ChangedNamesInOrder(xs: seq<Metadata>, ys: seq<Metadata>, cached: Listing)
    ensures ChangedNames(xs + ys, cached) == ChangedNames(xs, cached) + ChangedNames(ys, cached)
    ensures |xs| == 1 ==> ChangedNames(xs, cached) == (if Reported(xs[0], cached) then [xs[0].name] else [])
    decreases |xs|
  {
    if |xs| == 0 {
      assert xs + ys == ys;
    } else {
      assert (xs + ys)[1..] == xs[1..] + ys;
      ChangedNamesInOrder(xs[1..], ys, cached);
      if |xs| == 1 { assert xs[1..] == []; }
    }
  }

  /** The `DELETED` notices: cached names no longer listed. The order among
      them is that of the host's property enumeration and is not modelled. */
  function DeletedNames(current: seq<Metadata>, cached: Listing): (ds: set<string>)
    ensures forall n :: n in ds <==> n in cached && n !in Names(current)
  {
    cached.Keys - Names(current)
  }

  /** The outcome of one poll of one watched directory. */
  datatype Poll = Poll(st: State, listed: bool, changed: seq<string>, deleted: set<string>)

  /** `watchDirectory`, for the client the alarm handler looked up:
      nothing at all when watching is switched off; with it on, one listing
      call. A failed listing reports nothing; INVALID_OPERATION, the reply to
      a 401, also unmounts the account, any other failure is only logged. */
  function WatchDirectory(st: State, id: string, path: string, use: bool, listing: Reply<seq<Metadata>>): (p: Poll)
    requires id in st.clients
    ensures !use ==> p == Poll(st, false, [], {})
    ensures use ==> p.listed
    ensures use && listing.Err? && listing.code != InvalidOperation ==> p == Poll(st, true, [], {})
    ensures use && listing == Err(InvalidOperation) ==> p == Poll(Expire(st, id), true, [], {})
    ensures use && listing == Err(InvalidOperation) && Keyed(st) ==>
      Gone(p.st, id) && OthersUnchanged(st, p.st, id) && Keyed(p.st)
    ensures use && listing.Ok? ==>
      var cached := if Dir(CacheOf(st, id), path).Some? then Dir(CacheOf(st, id), path).value else map[];
      && p.st == WithCache(st, id, Put(CacheOf(st, id), path, listing.value))
      && (forall n :: n in p.changed <==>
            exists i :: 0 <= i < |listing.value| && listing.value[i].name == n && Reported(listing.value[i], cached))
      && (forall n :: n in p.deleted <==> n in cached && n !in Names(listing.value))
  {
    if !use then Poll(st, false, [], {})
    else
      match listing
      case Err(code) => Poll(if code == InvalidOperation then Expire(st, id) else st, true, [], {})
      case Ok(current) =>
        var c := CacheOf(st, id);
        var cached := if Dir(c, path).Some? then Dir(c, path).value else map[];
        Poll(WithCache(st, id, Put(c, path, current)), true, ChangedNames(current, cached), DeletedNames(current, cached))
  }

  /** No two listed entries share a name. */
  predicate DistinctNames(list: seq<Metadata>)
  {
    forall i, j :: 0 <= i < j < |list| ==> list[i].name != list[j].name
  }

  /** Every listed entry has a valid modification instant. */
  predicate ValidTimes(list: seq<Metadata>)
  {
    forall i :: 0 <= i < |list| ==> list[i].modificationTime.Date?
  }

  /** With no entry reported, there are no `CHANGED` notices. */
  lemma {:induction false} QuietWhenNothingReported(current: seq<Metadata>, cached: Listing)
    requires forall i :: 0 <= i < |current| ==> !Reported(current[i], cached)
    ensures ChangedNames(current, cached) == []
    decreases |current|
  {
    if |current| > 0 {
      assert forall i :: 0 <= i < |current| - 1 ==> current[1..][i] == current[i + 1];
      QuietWhenNothingReported(current[1..], cached);
    }
  }

  /** Comparing a listing with the cached copy of itself reports nothing. */
  lemma NothingAgainstItself(list: seq<Metadata>)
    requires DistinctNames(list) && ValidTimes(list)
    ensures ChangedNames(list, ListingOf(list)) == []
    ensures DeletedNames(list, ListingOf(list)) == {}
  {
    var cached := ListingOf(list);
    forall i | 0 <= i < |list| ensures !Reported(list[i], cached) {
      assert LastWithName(list, i);
      assert cached[list[i].name] == list[i];
    }
    QuietWhenNothingReported(list, cached);
  }

  /** Polling twice with the same answer: the second poll reports nothing and
      leaves the cache as the first left it. */
  lemma PollTwiceQuiet(st: State, id: string, path: string, list: seq<Metadata>)
    requires id in st.clients
    requires DistinctNames(list) && ValidTimes(list)
    ensures var p1 := WatchDirectory(st, id, path, true, Ok(list));
      var p2 := WatchDirectory(p1.st, id, path, true, Ok(list));
      p2.changed == [] && p2.deleted == {} && p2.st == p1.st
  {
    NothingAgainstItself(list);
    var c := Put(CacheOf(st, id), path, list);
    assert Put(c, path, list) == c;
    assert CacheOf(WatchDirectory(st, id, path, true, Ok(list)).st, id) == c;
  }

  /** A name that was not cached is always reported as changed, and a cached
      name that is no longer listed is always reported as deleted. */
  lemma AddedAndRemoved(st: State, id: string, path: string, list: seq<Metadata>, i: int, gone: string)
    requires id in st.clients
    requires 0 <= i < |list|
    requires var c := CacheOf(st, id);
      path in c && list[i].name !in c[path] && gone in c[path] && gone !in Names(list)
    ensures var p := WatchDirectory(st, id, path, true, Ok(list));
      list[i].name in p.changed && gone in p.deleted
  {
  }
}
