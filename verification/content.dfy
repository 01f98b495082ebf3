/** File content transfer: the ranged download behind `readFile`, the chunked
    upload session behind `writeFile`, the commit issued on `closeFile`, and
    the download-resize-upload cycle of `truncate`. Every remote call is an
    input: the acknowledgement of each request, in the order issued. */
module Content {
  import opened Common
  import opened Strings

  /** The upload chunk size, 4 MiB. */
  const CHUNK_SIZE: nat := 4 * 1024 * 1024

  /** A JavaScript number as the upload code can hold it: an integer, `NaN`,
      or `undefined` (a property that was never set). */
  datatype Num = Int(n: int) | NaN | Undefined

  /** `a + b` on numbers: `NaN` unless both are integers. */
  function Plus(a: Num, b: Num): (r: Num)
    ensures r.Int? <==> a.Int? && b.Int?
    ensures r.Int? ==> r.n == a.n + b.n
    ensures !r.Int? ==> r == NaN
  {
    if a.Int? && b.Int? then Int(a.n + b.n) else NaN
  }

  function Minus(a: Num, b: Num): (r: Num)
    ensures r.Int? <==> a.Int? && b.Int?
    ensures r.Int? ==> r.n == a.n - b.n
    ensures !r.Int? ==> r == NaN
  {
    if a.Int? && b.Int? then Int(a.n - b.n) else NaN
  }

  /** `Math.min(CHUNK_SIZE, x)`: `NaN` when `x` is not a number. */
  function MinChunk(x: Num): (r: Num)
    ensures x.Int? ==> r.Int? && r.n <= CHUNK_SIZE && r.n <= x.n && (r.n == CHUNK_SIZE || r.n == x.n)
    ensures !x.Int? ==> r == NaN
  {
    if !x.Int? then NaN else if CHUNK_SIZE < x.n then Int(CHUNK_SIZE) else x
  }

  /** `a < b`: every comparison with `NaN` is false. */
  predicate Less(a: Num, b: Num)
  {
    a.Int? && b.Int? && a.n < b.n
  }

  /** A slice index relative to a buffer of `len` bytes: negative counts from
      the end, and the result is clamped into `[0, len]`. */
  function RelativeIndex(x: int, len: nat): (k: nat)
    ensures k <= len
    ensures 0 <= x <= len ==> k == x
    ensures x > len ==> k == len
    ensures x < 0 ==> k == (if len + x < 0 then 0 else len + x)
  {
    if x < 0 then (if len + x < 0 then 0 else len + x)
    else if x > len then len
    else x
  }

  /** `ArrayBuffer.prototype.slice(begin, end)`: a non-number `begin` counts as
      0; an `undefined` end means the whole buffer, a `NaN` end counts as 0;
      an end at or before the start gives an empty buffer. */
  function Slice(d: Bytes, begin: Num, end: Num): (r: Bytes)
    ensures |r| <= |d|
    ensures begin.Int? && end.Int? && 0 <= begin.n <= end.n <= |d| ==> r == d[begin.n..end.n]
    ensures begin.Int? && end.Int? && 0 <= end.n <= begin.n ==> r == []
    ensures end == NaN ==> r == []
  {
    var b := RelativeIndex(if begin.Int? then begin.n else 0, |d|);
    var e := if end.Undefined? then |d| else RelativeIndex(if end.Int? then end.n else 0, |d|);
    if b < e then d[b..e] else []
  }

  /** The requests the content operations issue. `StartSession` opens an
      upload session; `Append` sends one chunk at a cursor offset; `Finish`
      commits the session to `path` in overwrite mode. */
  datatype Request =
    | Download(path: string, range: string)
    | StartSession
    | Append(sessionId: string, offset: Num, chunk: Bytes)
    | Finish(sessionId: string, offset: Num, path: string)

  /** The acknowledgement of one request (after the executor's retries). */
  type Ack = Reply<()>

  /** The open-file record: the upload session, once started, and the offset
      the last acknowledged chunk reached. Opening stores an empty record. */
  datatype WriteRecord = WriteRecord(uploadId: Option<string>, offset: Num)

  /** Open request id to record. */
  type Handles = map<int, WriteRecord>

  datatype Mode = ReadMode | WriteMode

  /** What one operation did: the requests in order, the handle table after
      it, and the reply to the host (`None`: still waiting for an answer). */
  datatype Outcome = Outcome(sent: seq<Request>, handles: Handles, reply: Option<Reply<()>>)

  // ---------------------------------------------------------------------
  // readFile

  /** The `Range` header of `readFile`: `bytes=first-last`, an inclusive byte
      range (section 2.1 of RFC 7233) whose last position is
      `offset + length - 1`. */
  function RangeHeader(offset: int, length: int): string
  {
    RangeText(IntToString(offset), IntToString(offset + length - 1))
  }

  function RangeText(first: string, last: string): string
  {
    "bytes=" + first + "-" + last
  }

  /** Reads a `bytes=first-last` header with both positions decimal. */
  function ParseRange(h: string): (r: Option<(nat, nat)>)
  {
    if |h| < 6 || h[..6] != "bytes=" then None
    else
      var rest := h[6..];
      var i := IndexOf(rest, '-');
      if i <= 0 then None
      else
        var first, last := rest[..i], rest[i + 1..];
        if |last| == 0 || !AllDigits(first, 10) || !AllDigits(last, 10) then None
        else Some((ParseBase(first, 10), ParseBase(last, 10)))
  }

  /** A decimal rendering holds no `-`. */
  lemma NoDash(n: nat)
    ensures '-' !in IntToString(n)
  {
    var s := IntToString(n);
    assert forall k :: 0 <= k < |s| ==> IsBaseDigit(s[k], 10);
  }

  /** The header of a non-empty read names exactly the requested bytes: it
      reads back as first `offset` and last `offset + length - 1`, which
      spans `length` bytes. */
  lemma RangeRoundTrip(offset: nat, length: nat)
    requires length >= 1
    ensures ParseRange(RangeHeader(offset, length)) == Some((offset, offset + length - 1))
  {
    var last: nat := offset + length - 1;
    var a, b := IntToString(offset), IntToString(last);
    assert ParseBase(a, 10) == offset && ParseBase(b, 10) == last;
    NoDash(offset);
    ParseRangeOf(a, b);
    assert ParseRange(RangeText(a, b)) == Some((offset, last));
    assert RangeHeader(offset, length) == RangeText(a, b);
  }

  /** A header built from two dash-free digit strings reads back as the
      numbers they denote. */
  lemma ParseRangeOf(a: string, b: string)
    requires |a| > 0 && |b| > 0 && AllDigits(a, 10) && AllDigits(b, 10)
    requires '-' !in a
    ensures ParseRange(RangeText(a, b)) == Some((ParseBase(a, 10), ParseBase(b, 10)))
  {
    RangeTextShape(a, b);
    SplitAtDash(a, b);
    ParseRangeAt(RangeText(a, b), |a|, a, b);
  }

  lemma RangeTextShape(a: string, b: string)
    ensures var h := RangeText(a, b);
      |h| >= 6 && h[..6] == "bytes=" && h[6..] == a + ['-'] + b
  {
    var h := RangeText(a, b);
    assert h == "bytes=" + (a + ['-'] + b);
  }

  /** A dash-free prefix ends at the first dash. */
  lemma SplitAtDash(a: string, b: string)
    requires '-' !in a
    ensures var rest := a + ['-'] + b;
      IndexOf(rest, '-') == |a| && rest[..|a|] == a && rest[|a| + 1..] == b
  {
    IndexOfFirst(a, '-', b);
    var rest := a + ['-'] + b;
    assert rest[..|a|] == a;
    assert rest[|a| + 1..] == b;
  }

  /** How `ParseRange` reads a header whose first dash after `bytes=` is at
      `i`. */
  lemma ParseRangeAt(h: string, i: int, first: string, last: string)
    requires |h| >= 6 && h[..6] == "bytes=" && IndexOf(h[6..], '-') == i && i > 0
    requires h[6..][..i] == first && h[6..][i + 1..] == last
    requires |last| > 0 && AllDigits(first, 10) && AllDigits(last, 10)
    ensures ParseRange(h) == Some((ParseBase(first, 10), ParseBase(last, 10)))
  {
  }

  /** A zero-length read asks for a range whose last position precedes its
      first, which section 2.1 of RFC 7233 calls invalid: from offset 1 on it
      reads back as such a pair, and at offset 0 (`bytes=0--1`) it does not
      read back at all. */
  lemma EmptyRangeInvalid(offset: nat)
    ensures offset >= 1 ==> ParseRange(RangeHeader(offset, 0)) == Some((offset, offset - 1))
    ensures ParseRange(RangeHeader(0, 0)) == None
  {
    if offset >= 1 {
      EmptyRangeFrom(offset);
    }
    EmptyRangeAtZero();
  }

  lemma EmptyRangeFrom(offset: nat)
    requires offset >= 1
    ensures ParseRange(RangeHeader(offset, 0)) == Some((offset, offset - 1))
  {
    var last: nat := offset - 1;
    var f, l := IntToString(offset), IntToString(last);
    assert ParseBase(f, 10) == offset && ParseBase(l, 10) == last;
    NoDash(offset);
    ParseRangeOf(f, l);
    assert RangeHeader(offset, 0) == RangeText(f, l);
  }

  /** `bytes=0--1`: the text after the first dash starts with a minus sign. */
  lemma EmptyRangeAtZero()
    ensures ParseRange(RangeHeader(0, 0)) == None
  {
    var z, m := IntToString(0), IntToString(-1);
    assert RangeHeader(0, 0) == RangeText(z, m);
    NoDash(0);
    RangeTextShape(z, m);
    SplitAtDash(z, m);
    var rest := RangeText(z, m)[6..];
    assert rest[|z| + 1..] == m;
    assert m[0] == '-' && !IsBaseDigit(m[0], 10);
  }

  lemma ReadRange(offset: int, length: int)
    ensures offset >= 0 && length >= 1 ==>
      ParseRange(RangeHeader(offset, length)) == Some((offset, offset + length - 1))
  {
    if offset >= 0 && length >= 1 { RangeRoundTrip(offset, length); }
  }

  /** `readFile`: one download of the requested range. */
  function ReadFile(path: string, offset: int, length: int, download: Reply<Bytes>): (r: (Request, Reply<Bytes>))
    ensures r.0.Download? && r.0.path == path && r.1 == download
    ensures offset >= 0 && length >= 1 ==> ParseRange(r.0.range) == Some((offset, offset + length - 1))
  {
    ReadRange(offset, length);
    (Download(path, RangeHeader(offset, length)), download)
  }

  // ---------------------------------------------------------------------
  // The intended upload loop

  /** The state `sendContents` carries: the data, the write offset of the next
      chunk, the bytes already sent, the session, whether a chunk is still
      due, whether to commit at the end, and the open request to update. */
  datatype Upload = Upload(
    path: string,
    data: Bytes,
    offset: int,
    sent: nat,
    uploadId: string,
    hasMore: bool,
    needCommit: bool,
    handle: Option<int>)

  /** Records the offset reached on the handle, if it is still open. */
  function Record(handles: Handles, handle: Option<int>, offset: Num): (r: Handles)
    ensures r.Keys == handles.Keys
    ensures handle.Some? && handle.value in handles ==>
      r[handle.value] == handles[handle.value].(offset := offset)
    ensures forall k :: k in handles && Some(k) != handle ==> r[k] == handles[k]
    ensures !(handle.Some? && handle.value in handles) ==> r == handles
  {
    if handle.Some? && handle.value in handles then
      handles[handle.value := handles[handle.value].(offset := offset)]
    else handles
  }

  /** `sendContents` with the chunk taken as `[sent, sent + sendLength)` and
      `sent` advanced by `sendLength`: while a chunk is due, append
      `min(CHUNK_SIZE, remaining)` bytes at the current offset; then commit
      if asked. Every request names the same session, the handle table keeps
      its keys, and an unanswered request leaves the reply pending. */
  function Send(u: Upload, handles: Handles, acks: seq<Ack>): (o: Outcome)
    requires u.sent <= |u.data|
    ensures o.handles.Keys == handles.Keys
    ensures forall k :: k in handles ==> o.handles[k].uploadId == handles[k].uploadId
    ensures u.handle.None? ==> o.handles == handles
    ensures forall k :: k in handles && Some(k) != u.handle ==> o.handles[k] == handles[k]
    ensures forall i :: 0 <= i < |o.sent| ==>
      (o.sent[i].Append? || o.sent[i].Finish?) && o.sent[i].sessionId == u.uploadId
    ensures o.reply.None? ==> |o.sent| == |acks| + 1
    ensures o.reply.Some? ==> |o.sent| <= |acks|
    ensures o.reply.Some? && o.reply.value.Err? ==> 0 < |o.sent| && o.reply.value == acks[|o.sent| - 1]
    ensures forall i :: 0 <= i < |o.sent| - 1 ==> acks[i].Ok?
    decreases |acks|, if u.hasMore then 1 else 0
  {
    if !u.hasMore then
      if u.needCommit then
        var f := Finish(u.uploadId, Int(u.offset), u.path);
        if |acks| == 0 then Outcome([f], handles, None) else Outcome([f], handles, Some(acks[0]))
      else Outcome([], handles, Some(Ok(())))
    else
      var a := Append(u.uploadId, Int(u.offset), u.data[u.sent..u.sent + SendLength(u)]);
      if |acks| == 0 then Outcome([a], handles, None)
      else if acks[0].Err? then Outcome([a], handles, Some(acks[0]))
      else
        var rest := Send(Advance(u), Record(handles, u.handle, Int(Advance(u).offset)), acks[1..]);
        Outcome([a] + rest.sent, rest.handles, rest.reply)
  }

  /** `Math.min(CHUNK_SIZE, remains)`. */
  function SendLength(u: Upload): (n: nat)
    requires u.sent <= |u.data|
    ensures u.sent + n <= |u.data| && n <= CHUNK_SIZE
    ensures n == CHUNK_SIZE || n == |u.data| - u.sent
  {
    var remains := |u.data| - u.sent;
    if CHUNK_SIZE < remains then CHUNK_SIZE else remains
  }

  /** The state after one acknowledged chunk: offset and `sent` both advance
      by the chunk length, and a chunk stays due while bytes remain. */
  function Advance(u: Upload): (v: Upload)
    requires u.sent <= |u.data|
    ensures v.sent <= |v.data| && v.data == u.data && v.uploadId == u.uploadId && v.path == u.path
    ensures v.needCommit == u.needCommit && v.handle == u.handle
    ensures v.hasMore <==> v.sent < |v.data|
  {
    var n := SendLength(u);
    u.(offset := u.offset + n, sent := u.sent + n, hasMore := u.sent + n < |u.data|)
  }

  // ---------------------------------------------------------------------
  // The reference definition of a complete upload

  /** The concatenation of a list of chunks. */
  function Flatten(cs: seq<Bytes>): Bytes
  {
    if |cs| == 0 then [] else cs[0] + Flatten(cs[1..])
  }

  /** The chunks a buffer is sent in: full chunks of `CHUNK_SIZE` bytes and
      one last chunk of the rest, which is empty for an empty buffer. */
  function Chunks(d: Bytes): (cs: seq<Bytes>)
    ensures |cs| >= 1
    ensures Flatten(cs) == d
    ensures forall i :: 0 <= i < |cs| ==> |cs[i]| <= CHUNK_SIZE
    ensures forall i :: 0 <= i < |cs| - 1 ==> |cs[i]| == CHUNK_SIZE
    ensures |d| > 0 ==> forall i :: 0 <= i < |cs| ==> |cs[i]| > 0
    decreases |d|
  {
    if |d| <= CHUNK_SIZE then
      assert Flatten([d]) == d + Flatten([]);
      [d]
    else
      var rest := Chunks(d[CHUNK_SIZE..]);
      assert Flatten([d[..CHUNK_SIZE]] + rest) == d[..CHUNK_SIZE] + Flatten(rest) by {
        assert ([d[..CHUNK_SIZE]] + rest)[1..] == rest;
      }
      assert d == d[..CHUNK_SIZE] + d[CHUNK_SIZE..];
      [d[..CHUNK_SIZE]] + rest
  }

  /** The number of appends for `n` bytes: `max(1, ceil(n / CHUNK_SIZE))`. */
  function NumChunks(n: nat): nat
  {
    if n == 0 then 1 else (n + CHUNK_SIZE - 1) / CHUNK_SIZE
  }

  lemma {:induction false} ChunkCount(d: Bytes)
    ensures |Chunks(d)| == NumChunks(|d|)
    decreases |d|
  {
    if |d| > CHUNK_SIZE {
      ChunkCount(d[CHUNK_SIZE..]);
      var m := |d| - CHUNK_SIZE;
      assert (m + CHUNK_SIZE - 1) / CHUNK_SIZE + 1 == (|d| + CHUNK_SIZE - 1) / CHUNK_SIZE;
    }
  }

  /** A buffer of `k` full chunks and a non-empty tail goes out in `k + 1`
      appends; so a 20 MiB + 37 byte buffer takes six. */
  lemma ChunksOfBuffer(k: nat, tail: nat)
    requires 0 < tail <= CHUNK_SIZE
    ensures NumChunks(k * CHUNK_SIZE + tail) == k + 1
    ensures NumChunks(5 * CHUNK_SIZE + 37) == 6
  {
    var n := k * CHUNK_SIZE + tail;
    assert n + CHUNK_SIZE - 1 == (k + 1) * CHUNK_SIZE + (tail - 1);
    DivOfMultiple(k + 1, tail - 1);
    DivOfMultiple(6, 36);
  }

  /** `(q * CHUNK_SIZE + r) / CHUNK_SIZE` is `q` for a remainder below the
      chunk size. */
  lemma DivOfMultiple(q: nat, r: nat)
    requires r < CHUNK_SIZE
    ensures (q * CHUNK_SIZE + r) / CHUNK_SIZE == q
  {
  }

  /** The appends of a list of chunks, each at the offset the previous ones
      reached. */
  function Appends(id: string, offset: int, cs: seq<Bytes>): (rs: seq<Request>)
    ensures |rs| == |cs|
    ensures forall i :: 0 <= i < |cs| ==> rs[i].Append? && rs[i].sessionId == id && rs[i].chunk == cs[i]
    decreases |cs|
  {
    if |cs| == 0 then [] else [Append(id, Int(offset), cs[0])] + Appends(id, offset + |cs[0]|, cs[1..])
  }

  /** Chunk `i` of a buffer is appended at `offset + i * CHUNK_SIZE`. */
  lemma {:induction false} AppendOffsets(id: string, offset: int, d: Bytes, i: nat)
    requires i < |Chunks(d)|
    ensures Appends(id, offset, Chunks(d))[i].offset == Int(offset + i * CHUNK_SIZE)
    decreases |d|
  {
    if i > 0 {
      var cs := Chunks(d);
      assert |d| > CHUNK_SIZE;
      var tail := Chunks(d[CHUNK_SIZE..]);
      assert cs == [d[..CHUNK_SIZE]] + tail;
      assert Appends(id, offset, cs) == [Append(id, Int(offset), cs[0])] + Appends(id, offset + CHUNK_SIZE, tail);
      AppendOffsets(id, offset + CHUNK_SIZE, d[CHUNK_SIZE..], i - 1);
      assert offset + CHUNK_SIZE + (i - 1) * CHUNK_SIZE == offset + i * CHUNK_SIZE;
    }
  }

  /** The requests of a complete upload of `data` at `offset`: every chunk in
      order, then the commit at the offset the data ends at if asked. */
  function CompleteUpload(id: string, path: string, data: Bytes, offset: int, commit: bool): seq<Request>
  {
    Appends(id, offset, Chunks(data)) + (if commit then [Finish(id, Int(offset + |data|), path)] else [])
  }

  function AcksNeeded(data: Bytes, commit: bool): nat
  {
    |Chunks(data)| + (if commit then 1 else 0)
  }

  predicate AllOk(acks: seq<Ack>)
  {
    forall i :: 0 <= i < |acks| ==> acks[i] == Ok(())
  }

  /** One acknowledged chunk: the append, then the rest of the loop. */
  lemma SendStep(u: Upload, handles: Handles, acks: seq<Ack>)
    requires u.hasMore && u.sent <= |u.data|
    requires |acks| > 0 && acks[0] == Ok(())
    ensures var rest := Send(Advance(u), Record(handles, u.handle, Int(Advance(u).offset)), acks[1..]);
      Send(u, handles, acks) ==
        Outcome([Append(u.uploadId, Int(u.offset), u.data[u.sent..u.sent + SendLength(u)])] + rest.sent,
                rest.handles, rest.reply)
  {
    assert !acks[0].Err?;
  }

  /** The loop once no chunk is due and every request is acknowledged. */
  lemma SendDone(u: Upload, handles: Handles, acks: seq<Ack>)
    requires !u.hasMore && u.sent <= |u.data|
    requires AllOk(acks) && |acks| >= (if u.needCommit then 1 else 0)
    ensures Send(u, handles, acks) ==
      Outcome(if u.needCommit then [Finish(u.uploadId, Int(u.offset), u.path)] else [], handles, Some(Ok(())))
  {
    if u.needCommit {
      assert acks[0] == Ok(());
    }
  }

  /** With every request acknowledged, the loop sends the remaining data as
      the reference chunks at consecutive offsets, commits at the end offset
      when asked, records that end offset on the handle, and succeeds. */
  lemma {:induction false} SendAllOk(u: Upload, handles: Handles, acks: seq<Ack>)
    requires u.hasMore && u.sent <= |u.data|
    requires AllOk(acks) && |acks| >= AcksNeeded(u.data[u.sent..], u.needCommit)
    ensures var o := Send(u, handles, acks);
      && o.reply == Some(Ok(()))
      && o.sent == CompleteUpload(u.uploadId, u.path, u.data[u.sent..], u.offset, u.needCommit)
      && o.handles == Record(handles, u.handle, Int(u.offset + |u.data| - u.sent))
    decreases |acks|, 1
  {
    if Advance(u).hasMore {
      SendAllOkStep(u, handles, acks);
    } else {
      SendAllOkLast(u, handles, acks);
    }
  }

  /** The same, for a chunk that is not the last. */
  lemma {:induction false} SendAllOkStep(u: Upload, handles: Handles, acks: seq<Ack>)
    requires u.hasMore && u.sent <= |u.data| && Advance(u).hasMore
    requires AllOk(acks) && |acks| >= AcksNeeded(u.data[u.sent..], u.needCommit)
    ensures var o := Send(u, handles, acks);
      && o.reply == Some(Ok(()))
      && o.sent == CompleteUpload(u.uploadId, u.path, u.data[u.sent..], u.offset, u.needCommit)
      && o.handles == Record(handles, u.handle, Int(u.offset + |u.data| - u.sent))
    decreases |acks|, 0
  {
    var rest := u.data[u.sent..];
    var next := Advance(u);
    var h1 := Record(handles, u.handle, Int(next.offset));
    var head := [Append(u.uploadId, Int(u.offset), rest[..CHUNK_SIZE])];
    var tail := Send(next, h1, acks[1..]);
    var end := u.offset + |u.data| - u.sent;
    SendAllOkMore(u, handles, acks);
    assert AllOk(acks[1..]);
    assert tail.reply == Some(Ok(()))
      && tail.sent == CompleteUpload(u.uploadId, u.path, u.data[next.sent..], next.offset, u.needCommit)
      && tail.handles == Record(h1, u.handle, Int(end)) by {
      SendAllOk(next, h1, acks[1..]);
      assert next.handle == u.handle && next.uploadId == u.uploadId && next.path == u.path;
      assert next.needCommit == u.needCommit && next.data == u.data;
      assert Int(next.offset + |next.data| - next.sent) == Int(end);
    }
    ComposeOk(Send(u, handles, acks), head, tail, CompleteUpload(u.uploadId, u.path, rest, u.offset, u.needCommit),
              handles, u.handle, Int(next.offset), Int(end));
  }

  /** A step followed by a successful rest of the loop is a successful loop. */
  lemma ComposeOk(o: Outcome, head: seq<Request>, tail: Outcome, whole: seq<Request>,
                  handles: Handles, handle: Option<int>, mid: Num, end: Num)
    requires o == Outcome(head + tail.sent, tail.handles, tail.reply)
    requires whole == head + tail.sent && tail.reply == Some(Ok(()))
    requires tail.handles == Record(Record(handles, handle, mid), handle, end)
    ensures o.reply == Some(Ok(())) && o.sent == whole && o.handles == Record(handles, handle, end)
  {
    RecordTwice(handles, handle, mid, end);
  }

  lemma RecordTwice(handles: Handles, handle: Option<int>, a: Num, b: Num)
    ensures Record(Record(handles, handle, a), handle, b) == Record(handles, handle, b)
  {
  }

  /** A buffer longer than one chunk: its reference upload is the first full
      chunk, then the reference upload of the rest one chunk further on. */
  lemma CompleteUploadCons(id: string, path: string, d: Bytes, offset: int, commit: bool)
    requires |d| > CHUNK_SIZE
    ensures CompleteUpload(id, path, d, offset, commit) ==
      [Append(id, Int(offset), d[..CHUNK_SIZE])] + CompleteUpload(id, path, d[CHUNK_SIZE..], offset + CHUNK_SIZE, commit)
    ensures AcksNeeded(d, commit) == 1 + AcksNeeded(d[CHUNK_SIZE..], commit)
  {
    var cs := Chunks(d);
    assert cs == [d[..CHUNK_SIZE]] + Chunks(d[CHUNK_SIZE..]);
    assert cs[1..] == Chunks(d[CHUNK_SIZE..]);
    assert Appends(id, offset, cs) == [Append(id, Int(offset), d[..CHUNK_SIZE])] + Appends(id, offset + CHUNK_SIZE, Chunks(d[CHUNK_SIZE..]));
  }

  /** A chunk that is not the last: the loop sends it and continues, and the
      reference upload splits the same way. */
  lemma SendAllOkMore(u: Upload, handles: Handles, acks: seq<Ack>)
    requires u.hasMore && u.sent <= |u.data| && Advance(u).hasMore
    requires |acks| >= 1 && acks[0] == Ok(())
    ensures var next := Advance(u);
      var tail := Send(next, Record(handles, u.handle, Int(next.offset)), acks[1..]);
      && Send(u, handles, acks) == Outcome([Append(u.uploadId, Int(u.offset), u.data[u.sent..][..CHUNK_SIZE])] + tail.sent, tail.handles, tail.reply)
      && CompleteUpload(u.uploadId, u.path, u.data[u.sent..], u.offset, u.needCommit) ==
         [Append(u.uploadId, Int(u.offset), u.data[u.sent..][..CHUNK_SIZE])] +
         CompleteUpload(u.uploadId, u.path, u.data[Advance(u).sent..], Advance(u).offset, u.needCommit)
      && AcksNeeded(u.data[u.sent..], u.needCommit) == 1 + AcksNeeded(u.data[Advance(u).sent..], u.needCommit)
  {
    SendFullChunk(u, handles, acks);
    CompleteUploadMore(u);
  }

  /** The loop's side of a chunk that is not the last. */
  lemma SendFullChunk(u: Upload, handles: Handles, acks: seq<Ack>)
    requires u.hasMore && u.sent <= |u.data| && Advance(u).hasMore
    requires |acks| >= 1 && acks[0] == Ok(())
    ensures var next := Advance(u);
      var tail := Send(next, Record(handles, u.handle, Int(next.offset)), acks[1..]);
      Send(u, handles, acks) == Outcome([Append(u.uploadId, Int(u.offset), u.data[u.sent..][..CHUNK_SIZE])] + tail.sent, tail.handles, tail.reply)
  {
    assert SendLength(u) == CHUNK_SIZE;
    assert u.data[u.sent..u.sent + CHUNK_SIZE] == u.data[u.sent..][..CHUNK_SIZE];
    SendStep(u, handles, acks);
  }

  /** The reference side of a chunk that is not the last. */
  lemma CompleteUploadMore(u: Upload)
    requires u.hasMore && u.sent <= |u.data| && Advance(u).hasMore
    ensures CompleteUpload(u.uploadId, u.path, u.data[u.sent..], u.offset, u.needCommit) ==
         [Append(u.uploadId, Int(u.offset), u.data[u.sent..][..CHUNK_SIZE])] +
         CompleteUpload(u.uploadId, u.path, u.data[Advance(u).sent..], Advance(u).offset, u.needCommit)
    ensures AcksNeeded(u.data[u.sent..], u.needCommit) == 1 + AcksNeeded(u.data[Advance(u).sent..], u.needCommit)
  {
    var next := Advance(u);
    assert SendLength(u) == CHUNK_SIZE by {
      assert next.sent == u.sent + SendLength(u) < |u.data|;
    }
    assert next.offset == u.offset + CHUNK_SIZE && next.sent == u.sent + CHUNK_SIZE < |u.data|;
    CompleteUploadShift(u.uploadId, u.path, u.data, u.sent, u.offset, u.needCommit, next.sent, next.offset);
  }

  /** `CompleteUploadCons` on a suffix of the data, one chunk further on. */
  lemma CompleteUploadShift(id: string, path: string, data: Bytes, sent: nat, offset: int, commit: bool, sent2: nat, offset2: int)
    requires sent + CHUNK_SIZE == sent2 < |data| && offset2 == offset + CHUNK_SIZE
    ensures CompleteUpload(id, path, data[sent..], offset, commit) ==
         [Append(id, Int(offset), data[sent..][..CHUNK_SIZE])] + CompleteUpload(id, path, data[sent2..], offset2, commit)
    ensures AcksNeeded(data[sent..], commit) == 1 + AcksNeeded(data[sent2..], commit)
  {
    assert data[sent..][CHUNK_SIZE..] == data[sent2..];
    CompleteUploadCons(id, path, data[sent..], offset, commit);
  }

  /** The last chunk: the reference upload is that chunk and the commit. */
  lemma SendAllOkLast(u: Upload, handles: Handles, acks: seq<Ack>)
    requires u.hasMore && u.sent <= |u.data| && !Advance(u).hasMore
    requires AllOk(acks) && |acks| >= AcksNeeded(u.data[u.sent..], u.needCommit)
    ensures var o := Send(u, handles, acks);
      && o.reply == Some(Ok(()))
      && o.sent == CompleteUpload(u.uploadId, u.path, u.data[u.sent..], u.offset, u.needCommit)
      && o.handles == Record(handles, u.handle, Int(u.offset + |u.data| - u.sent))
  {
    var rest := u.data[u.sent..];
    var n := SendLength(u);
    var next := Advance(u);
    var h1 := Record(handles, u.handle, Int(next.offset));
    assert acks[0] == Ok(());
    SendStep(u, handles, acks);
    assert n == |rest| && u.data[u.sent..u.sent + n] == rest;
    assert Chunks(rest) == [rest];
    assert AllOk(acks[1..]);
    SendDone(next, h1, acks[1..]);
  }

  // ---------------------------------------------------------------------
  // openFile, writeFile, closeFile

  /** `openFile`: a fresh, empty record under the request id. */
  function OpenFile(handles: Handles, rid: int): (r: Handles)
    ensures r.Keys == handles.Keys + {rid}
    ensures r[rid].uploadId.None? && r[rid].offset.Undefined?
    ensures forall k :: k in handles && k != rid ==> r[k] == handles[k]
  {
    handles[rid := WriteRecord(None, Undefined)]
  }

  /** `writeFile` and `doWriteFile`: reuse the handle's session, or start one
      and record its id first; then upload the data at `offset` without
      committing. A write to a request id that was never opened fails inside
      the callback and replies nothing. */
  function WriteFile(handles: Handles, rid: int, path: string, data: Bytes, offset: int,
                     start: Reply<string>, acks: seq<Ack>): (o: Outcome)
    ensures rid !in handles ==> o == Outcome([], handles, None)
    ensures o.handles.Keys == handles.Keys
    ensures rid in handles && Truthy(handles[rid].uploadId) ==> StartSession !in o.sent
    ensures rid in handles && !Truthy(handles[rid].uploadId) ==>
      && |o.sent| >= 1 && o.sent[0] == StartSession
      && (start.Err? ==> o == Outcome([StartSession], handles, Some(Err(start.code))))
      && (start.Ok? ==> o.handles[rid].uploadId == Some(start.value))
  {
    if rid !in handles then Outcome([], handles, None)
    else
      var w := handles[rid];
      if Truthy(w.uploadId) then
        Send(Upload(path, data, offset, 0, w.uploadId.value, true, false, Some(rid)), handles, acks)
      else
        match start
        case Err(e) => Outcome([StartSession], handles, Some(Err(e)))
        case Ok(sid) =>
          var h := handles[rid := w.(uploadId := Some(sid))];
          var o := Send(Upload(path, data, offset, 0, sid, true, false, Some(rid)), h, acks);
          Outcome([StartSession] + o.sent, o.handles, o.reply)
  }

  /** The session a write on `rid` uploads into. */
  function SessionFor(handles: Handles, rid: int, start: Reply<string>): string
    requires rid in handles
    requires Truthy(handles[rid].uploadId) || start.Ok?
  {
    if Truthy(handles[rid].uploadId) then handles[rid].uploadId.value else start.value
  }

  /** A fully acknowledged write uploads every chunk of the data at
      consecutive offsets from `offset`, starts a session only when the handle
      had none, and leaves the handle with that session and the end offset. */
  lemma WriteAllOk(handles: Handles, rid: int, path: string, data: Bytes, offset: int,
                   start: Reply<string>, acks: seq<Ack>)
    requires rid in handles
    requires Truthy(handles[rid].uploadId) || start.Ok?
    requires AllOk(acks) && |acks| >= AcksNeeded(data, false)
    ensures var o := WriteFile(handles, rid, path, data, offset, start, acks);
      var id := SessionFor(handles, rid, start);
      && o.reply == Some(Ok(()))
      && o.sent == (if Truthy(handles[rid].uploadId) then [] else [StartSession]) + CompleteUpload(id, path, data, offset, false)
      && o.handles == handles[rid := WriteRecord(Some(id), Int(offset + |data|))]
  {
    if Truthy(handles[rid].uploadId) {
      WriteResumedOk(handles, rid, path, data, offset, start, acks);
    } else {
      WriteFreshOk(handles, rid, path, data, offset, start, acks);
    }
  }

  /** `WriteAllOk` when the handle already has a session. */
  lemma WriteResumedOk(handles: Handles, rid: int, path: string, data: Bytes, offset: int,
                       start: Reply<string>, acks: seq<Ack>)
    requires rid in handles && Truthy(handles[rid].uploadId)
    requires AllOk(acks) && |acks| >= AcksNeeded(data, false)
    ensures var o := WriteFile(handles, rid, path, data, offset, start, acks);
      var id := handles[rid].uploadId.value;
      && o.reply == Some(Ok(()))
      && o.sent == [] + CompleteUpload(id, path, data, offset, false)
      && o.handles == handles[rid := WriteRecord(Some(id), Int(offset + |data|))]
  {
    var id := handles[rid].uploadId.value;
    var u := Upload(path, data, offset, 0, id, true, false, Some(rid));
    var o := Send(u, handles, acks);
    assert WriteFile(handles, rid, path, data, offset, start, acks) == o;
    SendFromStart(u, handles, acks);
    assert [] + o.sent == o.sent;
    assert handles[rid] == WriteRecord(Some(id), handles[rid].offset);
  }

  /** `SendAllOk` from the start of the data. */
  lemma SendFromStart(u: Upload, handles: Handles, acks: seq<Ack>)
    requires u.hasMore && u.sent == 0 && !u.needCommit
    requires AllOk(acks) && |acks| >= AcksNeeded(u.data, false)
    ensures var o := Send(u, handles, acks);
      && o.reply == Some(Ok(()))
      && o.sent == CompleteUpload(u.uploadId, u.path, u.data, u.offset, false)
      && o.handles == Record(handles, u.handle, Int(u.offset + |u.data|))
  {
    assert u.data[u.sent..] == u.data;
    SendAllOk(u, handles, acks);
  }

  lemma RecordFresh(handles: Handles, rid: int, id: string, end: Num)
    requires rid in handles
    ensures Record(handles[rid := handles[rid].(uploadId := Some(id))], Some(rid), end) == handles[rid := WriteRecord(Some(id), end)]
  {
  }

  /** A write on a handle with no session: the session start, then the upload
      loop from a record that holds the new session. */
  lemma WriteFileFresh(handles: Handles, rid: int, path: string, data: Bytes, offset: int, start: Reply<string>, acks: seq<Ack>)
    requires rid in handles && !Truthy(handles[rid].uploadId) && start.Ok?
    ensures var sid := start.value;
      var o := Send(Upload(path, data, offset, 0, sid, true, false, Some(rid)), handles[rid := handles[rid].(uploadId := Some(sid))], acks);
      WriteFile(handles, rid, path, data, offset, start, acks) == Outcome([StartSession] + o.sent, o.handles, o.reply)
  {
  }

  /** `WriteAllOk` when the write starts a session. */
  lemma WriteFreshOk(handles: Handles, rid: int, path: string, data: Bytes, offset: int,
                     start: Reply<string>, acks: seq<Ack>)
    requires rid in handles && !Truthy(handles[rid].uploadId) && start.Ok?
    requires AllOk(acks) && |acks| >= AcksNeeded(data, false)
    ensures var o := WriteFile(handles, rid, path, data, offset, start, acks);
      var id := start.value;
      && o.reply == Some(Ok(()))
      && o.sent == [StartSession] + CompleteUpload(id, path, data, offset, false)
      && o.handles == handles[rid := WriteRecord(Some(id), Int(offset + |data|))]
  {
    var id := start.value;
    var h := handles[rid := handles[rid].(uploadId := Some(id))];
    var u := Upload(path, data, offset, 0, id, true, false, Some(rid));
    var o := Send(u, h, acks);
    WriteFileFresh(handles, rid, path, data, offset, start, acks);
    SendFromStart(u, h, acks);
    RecordFresh(handles, rid, id, Int(offset + |data|));
  }

  /** `closeFile`: commit the handle's session at the offset recorded on the
      handle, but only for a write-mode close of a handle that has a session;
      anything else succeeds without a request. The record stays in the
      table. */
  function CloseFile(handles: Handles, rid: int, path: string, mode: Mode, acks: seq<Ack>): (o: Outcome)
    ensures o.handles == handles
    ensures |o.sent| <= 1
    ensures |o.sent| == 1 <==> rid in handles && mode == WriteMode && Truthy(handles[rid].uploadId)
    ensures |o.sent| == 1 ==> o.sent[0] == Finish(handles[rid].uploadId.value, handles[rid].offset, path)
    ensures |o.sent| == 0 ==> o.reply == Some(Ok(()))
    ensures |o.sent| == 1 ==> (o.reply.None? <==> |acks| == 0) && (o.reply.Some? ==> o.reply.value == acks[0])
  {
    if rid in handles && mode == WriteMode && Truthy(handles[rid].uploadId) then
      var f := Finish(handles[rid].uploadId.value, handles[rid].offset, path);
      if |acks| == 0 then Outcome([f], handles, None) else Outcome([f], handles, Some(acks[0]))
    else Outcome([], handles, Some(Ok(())))
  }

  /** Open, one acknowledged write, then close: the session is committed at
      exactly the offset where the written data ends. */
  lemma OpenWriteClose(handles: Handles, rid: int, path: string, data: Bytes, offset: int,
                       sid: string, acks: seq<Ack>, closeAcks: seq<Ack>)
    requires sid != ""
    requires AllOk(acks) && |acks| >= AcksNeeded(data, false)
    ensures var h := WriteFile(OpenFile(handles, rid), rid, path, data, offset, Ok(sid), acks).handles;
      CloseFile(h, rid, path, WriteMode, closeAcks).sent == [Finish(sid, Int(offset + |data|), path)]
  {
    WriteAllOk(OpenFile(handles, rid), rid, path, data, offset, Ok(sid), acks);
  }

  /** Closing a handle that never wrote commits nothing. */
  lemma CloseWithoutWrite(handles: Handles, rid: int, path: string, mode: Mode, acks: seq<Ack>)
    ensures CloseFile(OpenFile(handles, rid), rid, path, mode, acks) == Outcome([], OpenFile(handles, rid), Some(Ok(())))
  {
  }

  // ---------------------------------------------------------------------
  // truncate

  /** `n` zero bytes: the padding string of NUL characters, one byte each. */
  function ZeroBytes(n: nat): (z: Bytes)
    ensures |z| == n && forall i :: 0 <= i < n ==> z[i] == 0
  {
    if n == 0 then [] else [0] + ZeroBytes(n - 1)
  }

  /** The new contents: the first `length` bytes when shrinking, otherwise the
      old contents followed by zero bytes up to `length`. */
  function Resize(d: Bytes, length: int): (r: Bytes)
    ensures 0 <= length ==> |r| == length
    ensures 0 <= length < |d| ==> r == d[..length]
    ensures |d| <= length ==> r[..|d|] == d && forall i :: |d| <= i < length ==> r[i] == 0
    ensures length < 0 ==> r == d[..(if |d| + length < 0 then 0 else |d| + length)]
  {
    if length < |d| then Slice(d, Int(0), Int(length))
    else
      var r := d + ZeroBytes(length - |d|);
      assert r[..|d|] == d;
      r
  }

  /** `truncate`: download the whole file, start a session, upload the
      resized contents from offset 0 and always commit. No handle is
      involved. */
  function Truncate(handles: Handles, path: string, length: int, download: Reply<Bytes>,
                    start: Reply<string>, acks: seq<Ack>): (o: Outcome)
    ensures o.handles == handles
    ensures |o.sent| >= 1 && o.sent[0] == Download(path, "bytes=0-")
    ensures download.Err? ==> o == Outcome([Download(path, "bytes=0-")], handles, Some(Err(download.code)))
    ensures download.Ok? ==> |o.sent| >= 2 && o.sent[1] == StartSession
    ensures download.Ok? && start.Err? ==> o.reply == Some(Err(start.code)) && |o.sent| == 2
  {
    var dl := Download(path, "bytes=0-");
    match download
    case Err(e) => Outcome([dl], handles, Some(Err(e)))
    case Ok(d) =>
      match start
      case Err(e) => Outcome([dl, StartSession], handles, Some(Err(e)))
      case Ok(sid) =>
        var o := Send(Upload(path, Resize(d, length), 0, 0, sid, true, true, None), handles, acks);
        Outcome([dl, StartSession] + o.sent, o.handles, o.reply)
  }

  /** A fully acknowledged truncate to `length` uploads exactly `length` bytes
      (the old prefix, or the old contents padded with zeros) and commits at
      offset `length`. */
  lemma TruncateAllOk(handles: Handles, path: string, length: nat, d: Bytes, sid: string, acks: seq<Ack>)
    requires AllOk(acks) && |acks| >= AcksNeeded(Resize(d, length), true)
    ensures var o := Truncate(handles, path, length, Ok(d), Ok(sid), acks);
      && o.reply == Some(Ok(()))
      && o.sent == [Download(path, "bytes=0-"), StartSession] + CompleteUpload(sid, path, Resize(d, length), 0, true)
      && Finish(sid, Int(length), path) in o.sent
  {
    var r := Resize(d, length);
    assert r[0..] == r;
    SendAllOk(Upload(path, r, 0, 0, sid, true, true, None), handles, acks);
    var o := Truncate(handles, path, length, Ok(d), Ok(sid), acks);
    assert o.sent[|o.sent| - 1] == Finish(sid, Int(length), path);
  }

  // ---------------------------------------------------------------------
  // The upload loop as written

  /** The loop state as the source keeps it, with `offset` and `sentBytes` as
      JavaScript numbers. */
  datatype LiteralUpload = LiteralUpload(
    path: string,
    data: Bytes,
    offset: Num,
    sent: Num,
    uploadId: string,
    hasMore: bool,
    needCommit: bool,
    handle: Option<int>)

  /** The chunk expression as written: `slice(sentBytes, sendLength)`, which
      passes the chunk length where the slice end belongs. */
  function LiteralChunk(d: Bytes, sent: Num, sendLength: Num): Bytes
  {
    Slice(d, sent, sendLength)
  }

  /** `sendContents` as written: the chunk is `slice(sentBytes, sendLength)`
      and the next `sentBytes` is `options.sendBytes + sendLength`, where
      `sendBytes` is a property that is never set. */
  function LiteralSend(u: LiteralUpload, handles: Handles, acks: seq<Ack>): (o: Outcome)
    ensures o.handles.Keys == handles.Keys
    ensures o.reply.None? ==> |o.sent| == |acks| + 1
    decreases |acks|, if u.hasMore then 1 else 0
  {
    if !u.hasMore then
      if u.needCommit then
        var f := Finish(u.uploadId, u.offset, u.path);
        if |acks| == 0 then Outcome([f], handles, None) else Outcome([f], handles, Some(acks[0]))
      else Outcome([], handles, Some(Ok(())))
    else
      var len := Int(|u.data|);
      var sendLength := MinChunk(Minus(len, u.sent));
      var more := Less(Plus(u.sent, sendLength), len);
      var a := Append(u.uploadId, u.offset, LiteralChunk(u.data, u.sent, sendLength));
      if |acks| == 0 then Outcome([a], handles, None)
      else if acks[0].Err? then Outcome([a], handles, Some(acks[0]))
      else
        var next := u.(offset := Plus(u.offset, sendLength), sent := Plus(Undefined, sendLength), hasMore := more);
        var rest := LiteralSend(next, Record(handles, u.handle, Plus(u.offset, sendLength)), acks[1..]);
        Outcome([a] + rest.sent, rest.handles, rest.reply)
  }

  /** The loop as written, started the way `doWriteFile` and `truncate` start
      it. */
  function LiteralStart(path: string, data: Bytes, offset: int, id: string, commit: bool, handle: Option<int>): LiteralUpload
  {
    LiteralUpload(path, data, Int(offset), Int(0), id, true, commit, handle)
  }

  /** For data of at most one chunk the loop as written does what was
      intended. */
  lemma LiteralSmallAgrees(path: string, data: Bytes, offset: int, id: string, commit: bool,
                           handle: Option<int>, handles: Handles, acks: seq<Ack>)
    requires |data| <= CHUNK_SIZE
    ensures LiteralSend(LiteralStart(path, data, offset, id, commit, handle), handles, acks) ==
      Send(Upload(path, data, offset, 0, id, true, commit, handle), handles, acks)
  {
    var lu := LiteralStart(path, data, offset, id, commit, handle);
    var u := Upload(path, data, offset, 0, id, true, commit, handle);
    var n := |data|;
    assert SendLength(u) == n;
    assert MinChunk(Minus(Int(n), Int(0))) == Int(n);
    assert data[0..n] == data;
    assert LiteralChunk(data, Int(0), Int(n)) == data;
    if |acks| > 0 && acks[0].Ok? {
      var ln := lu.(offset := Int(offset + n), sent := NaN, hasMore := false);
      assert Less(Plus(Int(0), Int(n)), Int(n)) == false;
      LiteralStepOk(lu, handles, acks, Int(n), false);
      LiteralDoneAgrees(ln, Advance(u), Record(handles, handle, Int(offset + n)), acks[1..]);
    }
  }

  /** Once no chunk is due, the two loops agree whenever their offsets do. */
  lemma LiteralDoneAgrees(lu: LiteralUpload, u: Upload, handles: Handles, acks: seq<Ack>)
    requires !lu.hasMore && !u.hasMore && u.sent <= |u.data|
    requires lu.offset == Int(u.offset) && lu.uploadId == u.uploadId && lu.path == u.path
    requires lu.needCommit == u.needCommit
    ensures LiteralSend(lu, handles, acks) == Send(u, handles, acks)
  {
  }

  /** For data longer than one chunk the loop as written sends the first
      chunk, then an empty chunk, and stops: the handle's offset and the
      commit offset become `NaN`, and everything past the first 4 MiB is never
      sent. */
  lemma LiteralUnderSends(path: string, data: Bytes, offset: int, id: string, commit: bool,
                          rid: int, handles: Handles, acks: seq<Ack>)
    requires |data| > CHUNK_SIZE && rid in handles
    requires AllOk(acks) && |acks| >= 3
    ensures var o := LiteralSend(LiteralStart(path, data, offset, id, commit, Some(rid)), handles, acks);
      && o.sent == [Append(id, Int(offset), data[..CHUNK_SIZE]), Append(id, Int(offset + CHUNK_SIZE), [])]
                   + (if commit then [Finish(id, NaN, path)] else [])
      && o.handles[rid].offset == NaN
      && o.reply == Some(Ok(()))
  {
    var u0 := LiteralStart(path, data, offset, id, commit, Some(rid));
    var len := Int(|data|);
    assert Minus(len, Int(0)) == len;
    assert MinChunk(len) == Int(CHUNK_SIZE);
    assert Less(Plus(Int(0), Int(CHUNK_SIZE)), len);
    LiteralStepOk(u0, handles, acks, Int(CHUNK_SIZE), true);
    var u1 := u0.(offset := Int(offset + CHUNK_SIZE), sent := NaN, hasMore := true);
    var h1 := Record(handles, Some(rid), Int(offset + CHUNK_SIZE));
    assert MinChunk(Minus(len, NaN)) == NaN;
    LiteralStepOk(u1, h1, acks[1..], NaN, false);
    var u2 := u1.(offset := NaN, sent := NaN, hasMore := false);
    var h2 := Record(h1, Some(rid), NaN);
    assert acks[1..][1..] == acks[2..];
    var o2 := LiteralSend(u2, h2, acks[2..]);
    assert o2 == Outcome(if commit then [Finish(id, NaN, path)] else [], h2, Some(Ok(())));
    assert LiteralChunk(data, NaN, NaN) == [];
    assert LiteralChunk(data, Int(0), Int(CHUNK_SIZE)) == data[..CHUNK_SIZE];
    assert h2[rid].offset == NaN;
  }

  /** One acknowledged step of the loop as written, with the chunk length and
      the loop condition named. */
  lemma LiteralStepOk(u: LiteralUpload, handles: Handles, acks: seq<Ack>, sendLength: Num, more: bool)
    requires u.hasMore && |acks| > 0 && acks[0].Ok?
    requires sendLength == MinChunk(Minus(Int(|u.data|), u.sent))
    requires more == Less(Plus(u.sent, sendLength), Int(|u.data|))
    ensures var rest := LiteralSend(u.(offset := Plus(u.offset, sendLength), sent := Plus(Undefined, sendLength), hasMore := more),
                                    Record(handles, u.handle, Plus(u.offset, sendLength)), acks[1..]);
      LiteralSend(u, handles, acks) ==
        Outcome([Append(u.uploadId, u.offset, LiteralChunk(u.data, u.sent, sendLength))] + rest.sent, rest.handles, rest.reply)
  {
  }

  /** Line 424 alone: even with `sentBytes` advanced correctly, the second
      chunk of a buffer longer than 4 MiB comes out empty, where the intended
      slice holds the next bytes. */
  lemma LiteralSecondChunkEmpty(data: Bytes)
    requires |data| > CHUNK_SIZE
    ensures var sendLength := if CHUNK_SIZE < |data| - CHUNK_SIZE then CHUNK_SIZE else |data| - CHUNK_SIZE;
      && LiteralChunk(data, Int(CHUNK_SIZE), Int(sendLength)) == []
      && |data[CHUNK_SIZE..CHUNK_SIZE + sendLength]| == sendLength > 0
  {
  }
}
