/** The write-through page cache of kernel/src/fs/vfs.c. */
module Vfs {
  import opened Words
  import opened RbShape
  import RbTree
  import opened FileBytes

  /** The page frame of each vnode_page_t, by the tree node it embeds. */
  type Pages = map<Node, seq<u8>>

  /** Every cached page has an aligned offset and the bytes the file has there. */
  ghost predicate Coherent(pages: Pages, file: seq<u8>) {
    forall n :: n in pages ==> n.key % PAGE == 0 && pages[n] == PageOf(file, n.key)
  }

  /** The same, but page x may hold anything. */
  ghost predicate CoherentBut(pages: Pages, file: seq<u8>, x: Node) {
    forall n :: n in pages ==> n.key % PAGE == 0 && |pages[n]| == PAGE && (n != x ==> pages[n] == PageOf(file, n.key))
  }

  ghost predicate OneKeyEach(pages: Pages) {
    forall n, m :: n in pages && m in pages && n.key == m.key ==> n == m
  }

  lemma PageOffsets(pos: nat)
    ensures var off := pos % PAGE; off < PAGE && off <= pos && (pos - off) % PAGE == 0
  {
  }

  /** Writing part of page x through to the file keeps all pages right, x included if the patch made it so. */
  lemma WriteThrough(pages: Pages, file: seq<u8>, x: Node, i: nat, pos: nat, data: seq<u8>)
    requires pos == x.key + i && x in pages && CoherentBut(pages, file, x) && OneKeyEach(pages) && i + |data| <= PAGE
    requires pages[x] == PageOf(file, x.key) || (i == 0 && |data| == PAGE)
    ensures Coherent(pages[x := Patch(pages[x], i, data)], WriteBytes(file, pos, data))
  {
    hide WriteBytes, ReadBytes, Patch;
    var pages', file' := pages[x := Patch(pages[x], i, data)], WriteBytes(file, pos, data);
    PagePatched(file, x.key, i, data);
    if |data| == PAGE {
      FullPatch(pages[x], data);
      FullPatch(PageOf(file, x.key), data);
    }
    forall n | n in pages' ensures n.key % PAGE == 0 && pages'[n] == PageOf(file', n.key) {
      if n != x {
        AlignedApart(n.key, x.key);
        PageUntouched(file, pos, data, n.key);
      }
    }
  }

  ghost predicate Cached(pages: Pages, key: nat) { exists n :: n in pages && n.key == key }

  /** The page at key holds some of count bytes from offset on. */
  predicate InSpan(key: nat, offset: nat, count: nat) {
    count > 0 && key % PAGE == 0 && key < offset + count && offset < key + PAGE
  }

  /** The pages of the span have come to be cached, and no others. */
  ghost predicate Fetched(before: Pages, after: Pages, offset: nat, count: nat) {
    forall key: nat :: Cached(after, key) <==> Cached(before, key) || InSpan(key, offset, count)
  }

  lemma CachedMore(before: Pages, n: Node, bytes: seq<u8>, key: nat)
    ensures Cached(before[n := bytes], key) <==> Cached(before, key) || key == n.key
  {
    if Cached(before, key) {
      var x :| x in before && x.key == key;
      assert x in before[n := bytes];
    }
    if key == n.key {
      assert n in before[n := bytes];
    }
  }

  lemma SpanMore(key: nat, offset: nat, d: nat, n: nat, page: nat)
    requires n > 0 && page % PAGE == 0 && page <= offset + d && offset + d + n <= page + PAGE
    ensures InSpan(key, offset, d + n) <==> InSpan(key, offset, d) || key == page
  {
  }

  lemma FetchedMore(p0: Pages, p1: Pages, p2: Pages, offset: nat, d: nat, n: nat, page: nat)
    requires Fetched(p0, p1, offset, d) && (forall key: nat :: Cached(p2, key) <==> Cached(p1, key) || key == page)
    requires n > 0 && page % PAGE == 0 && page <= offset + d && offset + d + n <= page + PAGE
    ensures Fetched(p0, p2, offset, d + n)
  {
    hide InSpan, Cached;
    forall key: nat ensures Cached(p2, key) <==> Cached(p0, key) || InSpan(key, offset, d + n) {
      SpanMore(key, offset, d, n, page);
    }
  }

  lemma FetchedNone(p: Pages, offset: nat)
    ensures Fetched(p, p, offset, 0)
  {
  }

  /** The page lies in the span from offset to end. */
  predicate Within(key: nat, offset: nat, end: nat) { offset <= key && key + PAGE <= end }

  /**
   For the first d bytes from offset on, the backend was asked once for each page of theirs that was not cached before,
   in order, except for those that lie in the span up to end.
   */
  ghost predicate Asked(gets0: seq<nat>, gets: seq<nat>, before: Pages, offset: nat, d: nat, end: nat) {
    && gets0 <= gets && (forall i, j :: |gets0| <= i < j < |gets| ==> gets[i] < gets[j])
    && forall key: nat :: key in gets[|gets0|..] <==>
         InSpan(key, offset, d) && !Cached(before, key) && !Within(key, offset, end)
  }

  lemma AskedNone(gets: seq<nat>, before: Pages, offset: nat, end: nat)
    ensures Asked(gets, gets, before, offset, 0, end)
  {
  }

  lemma AskedMore(gets0: seq<nat>, gets: seq<nat>, gets': seq<nat>, p0: Pages, p1: Pages, offset: nat, d: nat, n: nat,
                  end: nat, page: nat)
    requires Asked(gets0, gets, p0, offset, d, end) && Fetched(p0, p1, offset, d)
    requires n > 0 && page % PAGE == 0 && page <= offset + d && offset + d + n <= page + PAGE
    requires gets' == gets + if Cached(p1, page) || Within(page, offset, end) then [] else [page]
    ensures Asked(gets0, gets', p0, offset, d + n, end)
  {
    forall key: nat ensures InSpan(key, offset, d + n) <==> InSpan(key, offset, d) || key == page {
      SpanMore(key, offset, d, n, page);
    }
    if gets' != gets {
      assert gets'[|gets0|..] == gets[|gets0|..] + [page];
      forall i | |gets0| <= i < |gets| ensures gets[i] < page {
        assert gets[i] in gets[|gets0|..];
        BelowNext(gets[i], offset, d, page);
      }
    }
    hide Cached, InSpan;
  }

  /** A turn that starts a page starts it whether seen from the turn or from the whole write. */
  lemma FromStart(page: nat, offset: nat, d: nat, n: nat)
    requires page % PAGE == 0 && page <= offset + d < page + PAGE && (d == 0 || (offset + d) % PAGE == 0)
    ensures Within(page, offset + d, offset + n) <==> Within(page, offset, offset + n)
  {
  }

  lemma TurnEnds(offset: nat, d: nat, d': nat, n: nat)
    requires d < d' <= n && var room := PAGE - (offset + d) % PAGE; d' - d == if n - d < room then n - d else room
    ensures d' == n || (offset + d') % PAGE == 0
  {
  }

  lemma BelowNext(key: nat, offset: nat, d: nat, page: nat)
    requires InSpan(key, offset, d) && page % PAGE == 0 && page <= offset + d < page + PAGE
    ensures key <= page
  {
  }

  /** A write asks for at most two pages: those at its ends, if it covers them in part. */
  lemma AsksTwice(gets0: seq<nat>, gets: seq<nat>, before: Pages, offset: nat, n: nat)
    requires Asked(gets0, gets, before, offset, n, offset + n)
    ensures |gets| <= |gets0| + 2
  {
    if |gets| > |gets0| + 2 {
      var k := |gets0|;
      assert gets[k] in gets[k..] && gets[k + 1] in gets[k..] && gets[k + 2] in gets[k..];
      assert gets[k] < gets[k + 1] < gets[k + 2];
      InMiddle(gets[k], gets[k + 1], gets[k + 2], offset, n);
    }
  }

  lemma InMiddle(a: nat, b: nat, c: nat, offset: nat, n: nat)
    requires InSpan(a, offset, n) && InSpan(b, offset, n) && InSpan(c, offset, n) && a < b < c
    ensures Within(b, offset, offset + n)
  {
    AlignedApart(a, b);
    AlignedApart(b, c);
  }

  lemma SameKeys(p: Pages, q: Pages)
    requires OneKeyEach(p) && p.Keys == q.Keys
    ensures OneKeyEach(q)
  {
  }

  lemma AlignedApart(a: nat, b: nat)
    requires a % PAGE == 0 && b % PAGE == 0 && a != b
    ensures a + PAGE <= b || b + PAGE <= a
  {
  }

  lemma StillCoherent(pages: Pages, f: seq<u8>, g: seq<u8>)
    requires Coherent(pages, f) && SameBytes(g, f)
    ensures Coherent(pages, g)
  {
    forall n | n in pages ensures n.key % PAGE == 0 && pages[n] == PageOf(g, n.key) {
      SamePages(g, f, n.key);
    }
  }

  lemma Dropped(pages: Pages, file: seq<u8>, n: Node)
    requires Coherent(pages, file) && OneKeyEach(pages)
    ensures Coherent(pages - {n}, file) && OneKeyEach(pages - {n})
  {
  }

  lemma NextOfFirst(s: seq<Node>, n: Node, r: Node?)
    requires s != [] && s[0] == n && IsNext(s, n, r)
    ensures r == if s[1..] == [] then null else s[1..][0]
  {
    if |s| > 1 {
      assert s[0 + 1] == s[1..][0];
    }
  }

  lemma HeadMoves(a: seq<Node>, s: seq<Node>)
    requires s != []
    ensures a + [s[0]] + s[1..] == a + s
  {
  }

  /** Taking the first node out of a sorted run leaves its tail. */
  lemma FirstRemoved(s': seq<Node>, s: seq<Node>, n: Node, z: Node?)
    requires Sorted(s) && s != [] && s[0] == n && z != null && z.key == n.key && Added(s', s, z)
    ensures z == n && s' == s[1..]
  {
    var i :| 0 <= i <= |s'| && s == s'[..i] + [z] + s'[i..];
    assert s[i] == z;
    assert i == 0;
  }

  /** Write-through, in order: one backend write for the part of the data in each page. */
  ghost function ChunkPuts(offset: nat, data: seq<u8>): seq<Put>
    decreases |data|
  {
    if data == [] then []
    else
      var room := PAGE - offset % PAGE;
      var n := if |data| < room then |data| else room;
      [Put(offset, data[..n])] + ChunkPuts(offset + n, data[n..])
  }

  lemma ChunkPutsNext(offset: nat, data: seq<u8>, done: nat, done': nat)
    requires done < done' <= |data|
    requires var room := PAGE - (offset + done) % PAGE;
      done' - done == if |data| - done < room then |data| - done else room
    ensures ChunkPuts(offset + done, data[done..])
         == [Put(offset + done, data[done..done'])] + ChunkPuts(offset + done', data[done'..])
  {
    assert data[done..][..done' - done] == data[done..done'];
    assert data[done..][done' - done..] == data[done'..];
  }

  /** The log holds the writes for the data up to done. */
  ghost predicate Logged(log0: seq<Put>, log: seq<Put>, offset: nat, data: seq<u8>, done: nat) {
    done <= |data| && log + ChunkPuts(offset + done, data[done..]) == log0 + ChunkPuts(offset, data)
  }

  lemma LoggedNone(log: seq<Put>, offset: nat, data: seq<u8>)
    ensures Logged(log, log, offset, data, 0)
  {
    assert data[0..] == data;
  }

  lemma LoggedMore(log0: seq<Put>, log: seq<Put>, offset: nat, data: seq<u8>, done: nat, done': nat)
    requires Logged(log0, log, offset, data, done) && done < done' <= |data|
    requires var room := PAGE - (offset + done) % PAGE;
      done' - done == if |data| - done < room then |data| - done else room
    ensures Logged(log0, log + [Put(offset + done, data[done..done'])], offset, data, done')
  {
    hide ChunkPuts;
    ChunkPutsNext(offset, data, done, done');
  }

  lemma LoggedAll(log0: seq<Put>, log: seq<Put>, offset: nat, data: seq<u8>)
    requires Logged(log0, log, offset, data, |data|)
    ensures log == log0 + ChunkPuts(offset, data)
  {
    assert data[|data|..] == [];
  }

  /** What a node and its backend hold, and what the backend was asked for. */
  datatype Books = Books(file: seq<u8>, pages: Pages, log: seq<Put>, gets: seq<nat>)

  /** One turn of the loop of vfs_write, from done to done', in the given page. */
  ghost predicate WriteTurn(b: Books, b': Books, offset: nat, data: seq<u8>, done: nat, done': nat, page: nat) {
    && done < done' <= |data| && page % PAGE == 0 && page <= offset + done && offset + done' <= page + PAGE
    && (var room := PAGE - (offset + done) % PAGE;
        done' - done == if |data| - done < room then |data| - done else room)
    && Wrote(b.file, offset + done, data[done..done'], b'.file)
    && b'.log == b.log + [Put(offset + done, data[done..done'])]
    && (b'.gets == b.gets
        + if Cached(b.pages, page) || Within(page, offset + done, offset + |data|) then [] else [page])
    && forall k: nat :: Cached(b'.pages, k) <==> Cached(b.pages, k) || k == page
  }

  /** The data up to done is written, cached and logged. */
  ghost predicate Progress(b0: Books, b: Books, offset: nat, data: seq<u8>, done: nat) {
    && done <= |data| && (done == 0 || done == |data| || (offset + done) % PAGE == 0)
    && Wrote(b0.file, offset, data[..done], b.file) && Fetched(b0.pages, b.pages, offset, done)
    && Logged(b0.log, b.log, offset, data, done) && Asked(b0.gets, b.gets, b0.pages, offset, done, offset + |data|)
  }

  lemma ProgressNone(b: Books, offset: nat, data: seq<u8>)
    ensures Progress(b, b, offset, data, 0)
  {
    WroteNothing(b.file, offset, data);
    FetchedNone(b.pages, offset);
    LoggedNone(b.log, offset, data);
    AskedNone(b.gets, b.pages, offset, offset + |data|);
  }

  lemma ProgressMore(b0: Books, b: Books, b': Books, offset: nat, data: seq<u8>, d: nat, d': nat, page: nat)
    requires Progress(b0, b, offset, data, d) && WriteTurn(b, b', offset, data, d, d', page)
    ensures Progress(b0, b', offset, data, d')
  {
    hide Wrote, Fetched, Cached, ChunkPuts, Logged, Asked, Within, InSpan;
    FromStart(page, offset, d, |data|);
    AskedMore(b0.gets, b.gets, b'.gets, b0.pages, b.pages, offset, d, d' - d, offset + |data|, page);
    TurnEnds(offset, d, d', |data|);
    FetchedMore(b0.pages, b.pages, b'.pages, offset, d, d' - d, page);
    LoggedMore(b0.log, b.log, offset, data, d, d');
    WroteMore(b0.file, offset, data, d, d', b.file, b'.file);
  }

  lemma TurnMoves(b: Books, b': Books, offset: nat, data: seq<u8>, d: nat, d': nat, page: nat)
    requires WriteTurn(b, b', offset, data, d, d', page)
    ensures d < d' <= |data|
  {
  }

  lemma ProgressAll(b0: Books, b: Books, offset: nat, data: seq<u8>)
    requires Progress(b0, b, offset, data, |data|)
    ensures Wrote(b0.file, offset, data, b.file) && Fetched(b0.pages, b.pages, offset, |data|)
    ensures b.log == b0.log + ChunkPuts(offset, data)
    ensures Asked(b0.gets, b.gets, b0.pages, offset, |data|, offset + |data|)
  {
    hide Wrote, Fetched, ChunkPuts, Logged, Asked;
    LoggedAll(b0.log, b.log, offset, data);
    assert data[..|data|] == data;
  }

  lemma OneChunk(data: seq<u8>)
    requires 0 < |data| <= PAGE
    ensures ChunkPuts(0, data) == [Put(0, data)]
  {
    assert data[..|data|] == data && data[|data|..] == [];
  }

  lemma TwoNodes(s: seq<Node>)
    requires Sorted(s)
    ensures |s| <= 1 || (s[0] in s && s[1] in s && s[0] != s[1])
  {
  }

  lemma SoleNode(s: seq<Node>, x: Node)
    requires Sorted(s) && x in s && forall y :: y in s ==> y == x
    ensures s == [x]
  {
    TwoNodes(s);
  }

  // ---- what a run of calls should do, on the bare file

  datatype Call = ReadAt(off: nat, count: nat) | WriteAt(off: nat, data: seq<u8>)

  predicate InRange(c: Call) {
    match c
    case ReadAt(off, n) => off + n <= U64_RANGE
    case WriteAt(off, data) => off + |data| <= U64_RANGE
  }

  function Step(file: seq<u8>, c: Call): (seq<u8>, seq<u8>) {
    match c
    case ReadAt(off, n) => (ReadBytes(file, off, n), file)
    case WriteAt(off, data) => ([], WriteBytes(file, off, data))
  }

  /** The file after the calls. */
  function FinalFile(file: seq<u8>, calls: seq<Call>): seq<u8> {
    if calls == [] then file else Step(FinalFile(file, calls[..|calls| - 1]), calls[|calls| - 1]).1
  }

  /** Each call answered on the file the calls before it leave. */
  function Replies(file: seq<u8>, calls: seq<Call>): (replies: seq<seq<u8>>)
    ensures |replies| == |calls|
  {
    seq(|calls|, i requires 0 <= i < |calls| => Step(FinalFile(file, calls[..i]), calls[i]).0)
  }

  lemma OneMore(file: seq<u8>, calls: seq<Call>, i: nat)
    requires i < |calls|
    ensures Replies(file, calls[..i + 1]) == Replies(file, calls[..i]) + [Step(FinalFile(file, calls[..i]), calls[i]).0]
    ensures FinalFile(file, calls[..i + 1]) == Step(FinalFile(file, calls[..i]), calls[i]).1
  {
    hide Step;
    assert calls[..i + 1][..i] == calls[..i];
    forall k | 0 <= k < i ensures Replies(file, calls[..i + 1])[k] == Replies(file, calls[..i])[k] {
      assert calls[..i + 1][..k] == calls[..i][..k];
    }
  }

  class VNode {
    const cached: bool
    const cache: RbTree.Tree
    var pages: Pages
    /** The backend: the file, what it was at first, every write it was asked for, and the pages read for the cache. */
    var file: seq<u8>
    ghost const origin: seq<u8>
    ghost var log: seq<Put>
    ghost var gets: seq<nat>

    /** Each tree node has its page. */
    ghost predicate Linked()
      reads this`pages, cache, cache.nodes
    {
      cache.Valid() && pages.Keys == cache.nodes && OneKeyEach(pages)
    }

    ghost predicate Valid()
      reads this, cache, cache.nodes
    {
      Linked() && Coherent(pages, file) && (!cached ==> pages == map[]) && file == Replay(origin, log)
    }

    constructor (cached: bool, file: seq<u8>)
      ensures Valid() && this.cached == cached && this.file == file && pages == map[]
      ensures fresh(cache) && cache.nodes == {} && log == [] && gets == []
    {
      this.cached := cached;
      this.cache := new RbTree.Tree();
      this.pages := map[];
      this.file, origin, log, gets := file, file, [], [];
    }

    ghost function Now(): Books
      reads this
    {
      Books(file, pages, log, gets)
    }

    /** A backend write that succeeds in full. */
    method BackendWrite(off: nat, data: seq<u8>)
      requires file == Replay(origin, log)
      modifies this`file, this`log
      ensures file == WriteBytes(old(file), off, data) == Replay(origin, log) && log == old(log) + [Put(off, data)]
    {
      ReplayMore(origin, log, Put(off, data));
      file := WriteBytes(file, off, data);
      log := log + [Put(off, data)];
    }

    /** A backend read of a whole page. */
    method BackendPage(key: nat) returns (bytes: seq<u8>)
      modifies this`gets
      ensures bytes == PageOf(file, key) && gets == old(gets) + [key]
    {
      gets := gets + [key];
      bytes := PageOf(file, key);
    }

    /** rb_find on the page cache. */
    method FindPage(key: u64) returns (n: Node?)
      requires Linked()
      ensures n != null ==> n in pages && n.key == key
      ensures n == null ==> forall x :: x in pages ==> x.key != key
    {
      ghost var c, t, steps;
      n, c, t, steps := cache.Find(key);
      NodesAreInorder(cache.shape);
    }

    /** A new vnode_page_t with the given contents, put into the tree. */
    method AddPage(key: u64, bytes: seq<u8>) returns (n: Node)
      requires Linked() && (forall x :: x in pages ==> x.key != key)
      modifies this`pages, cache, cache.nodes
      ensures Linked() && fresh(n) && n.key == key && n !in old(pages) && pages == old(pages)[n := bytes]
      ensures fresh(cache.nodes - old(cache.nodes))
    {
      hide RbTree.Tree.Valid;
      n := new Node(key);
      pages := pages[n := bytes];
      var inserted := cache.Insert(n);
    }

    /** Lines 204-233: the cached page, read from the backend on a miss. */
    method LoadPage(key: u64) returns (n: Node)
      requires Valid() && cached && key % PAGE == 0
      modifies this`pages, this`gets, cache, cache.nodes
      ensures Valid() && n in pages && n.key == key
      ensures gets == old(gets) + if old(Cached(pages, key)) then [] else [key]
      ensures forall k: nat :: Cached(pages, k) <==> old(Cached(pages, k)) || k == key
      ensures fresh(cache.nodes - old(cache.nodes))
    {
      hide RbTree.Tree.Valid;
      ghost var before := pages;
      var node := FindPage(key);
      if node != null {
        assert Cached(pages, key);
        return node;
      }
      var bytes := BackendPage(key);
      n := AddPage(key, bytes);
      forall k: nat ensures Cached(pages, k) <==> Cached(before, k) || k == key {
        CachedMore(before, n, bytes, k);
      }
    }

    /** Lines 198-202 and 263-267: the part of the request that falls into one page. */
    static method Chunk(pos: nat, left: nat) returns (offInPage: nat, pageOff: nat, toCopy: nat)
      requires left > 0
      ensures pageOff + offInPage == pos && pageOff % PAGE == 0 && offInPage < PAGE
      ensures toCopy == if left < PAGE - offInPage then left else PAGE - offInPage
    {
      PageOffsets(pos);
      offInPage := pos % PAGE;
      pageOff := pos - offInPage;
      toCopy := PAGE - offInPage;
      if toCopy > left {
        toCopy := left;
      }
    }

    /** One pass of the vfs_read loop; the bytes copied out are returned. */
    method ReadChunk(offset: nat, count: nat, done: nat) returns (bytes: seq<u8>, ghost page: nat)
      requires Valid() && cached && done < count && offset + count <= U64_RANGE
      modifies this`pages, this`gets, cache, cache.nodes
      ensures Valid() && 0 < |bytes| <= count - done
      ensures gets == old(gets) + if old(Cached(pages, page)) then [] else [page]
      ensures fresh(cache.nodes - old(cache.nodes))
      ensures bytes == ReadBytes(file, offset + done, |bytes|)
      ensures page % PAGE == 0 && page <= offset + done && offset + done + |bytes| <= page + PAGE
      ensures forall k: nat :: Cached(pages, k) <==> old(Cached(pages, k)) || k == page
    {
      hide RbTree.Tree.Valid;
      var offInPage, pageOff, toCopy := Chunk(offset + done, count - done);
      page := pageOff;
      var n := LoadPage(pageOff);
      PagePart(file, pageOff, offInPage, toCopy);
      bytes := pages[n][offInPage..offInPage + toCopy];
    }

    /** vfs_read over a backend that serves every request in full; data is what the caller's buffer receives. */
    method Read(offset: nat, count: nat) returns (data: seq<u8>)
      requires Valid() && offset + count <= U64_RANGE
      modifies this`pages, this`gets, cache, cache.nodes
      ensures Valid() && data == ReadBytes(file, offset, count)
      ensures fresh(cache.nodes - old(cache.nodes))
      ensures cached ==> Fetched(old(pages), pages, offset, count)
      ensures cached ==> Asked(old(gets), gets, old(pages), offset, count, 0)
    {
      hide RbTree.Tree.Valid, Fetched, Asked, Cached, Replay;
      data := [];
      if !cached {
        return ReadBytes(file, offset, count);
      }
      FetchedNone(pages, offset);
      AskedNone(gets, pages, offset, 0);
      while |data| < count
        invariant Valid() && |data| <= count && data == ReadBytes(file, offset, |data|)
        invariant fresh(cache.nodes - old(cache.nodes)) && Fetched(old(pages), pages, offset, |data|)
        invariant Asked(old(gets), gets, old(pages), offset, |data|, 0)
        decreases count - |data|
      {
        ghost var p, g, page := pages, gets, 0;
        var bytes;
        bytes, page := ReadChunk(offset, count, |data|);
        AskedMore(old(gets), g, gets, old(pages), p, offset, |data|, |bytes|, 0, page);
        FetchedMore(old(pages), p, pages, offset, |data|, |bytes|, page);
        ReadSplit(file, offset, |data|, |bytes|);
        data := data + bytes;
      }
    }

    /** A page frame fresh from pmm_alloc, contents unspecified. */
    static method NewFrame() returns (bytes: seq<u8>)
      ensures |bytes| == PAGE
    {
      assert |seq<u8>(PAGE, _ => 0)| == PAGE;
      bytes :| |bytes| == PAGE;
    }

    /** Lines 269-296: the cached page; on a miss the backend is read unless the page will be overwritten whole. */
    method PageForWrite(key: u64, fill: bool) returns (n: Node)
      requires Valid() && cached && key % PAGE == 0
      modifies this`pages, this`gets, cache, cache.nodes
      ensures Linked() && n in pages && n.key == key && CoherentBut(pages, file, n)
      ensures gets == old(gets) + if old(Cached(pages, key)) || !fill then [] else [key]
      ensures fill ==> pages[n] == PageOf(file, key)
      ensures forall k: nat :: Cached(pages, k) <==> old(Cached(pages, k)) || k == key
      ensures file == old(file)
      ensures fresh(cache.nodes - old(cache.nodes))
    {
      hide RbTree.Tree.Valid;
      ghost var before := pages;
      var node := FindPage(key);
      if node != null {
        assert Cached(pages, key);
        return node;
      }
      var bytes := NewFrame();
      if fill {
        bytes := BackendPage(key);
      }
      n := AddPage(key, bytes);
      forall k: nat ensures Cached(pages, k) <==> Cached(before, k) || k == key {
        CachedMore(before, n, bytes, k);
      }
    }

    /** One pass of the vfs_write loop. */
    method WriteChunk(offset: nat, data: seq<u8>, done: nat) returns (done': nat, ghost page: nat)
      requires Valid() && cached && done < |data| && offset + |data| <= U64_RANGE
      modifies this`pages, this`file, this`log, this`gets, cache, cache.nodes
      ensures Valid() && WriteTurn(old(Now()), Now(), offset, data, done, done', page)
      ensures fresh(cache.nodes - old(cache.nodes))
    {
      hide RbTree.Tree.Valid, Wrote, Coherent, CoherentBut, Replay, Cached;
      var offInPage, pageOff, toCopy := Chunk(offset + done, |data| - done);
      page := pageOff;
      var n := PageForWrite(pageOff, offInPage > 0 || toCopy < PAGE);
      done' := done + toCopy;
      Store(n, offInPage, offset + done, data[done..done'], old(file));
    }

    /** Lines 298-311: the cached page and the backend receive the same bytes. */
    method Store(n: Node, off: nat, pos: nat, chunk: seq<u8>, ghost before: seq<u8>)
      requires before == file && cached && Linked() && pos == n.key + off && n in pages && CoherentBut(pages, file, n)
        && off + |chunk| <= PAGE
      requires pages[n] == PageOf(file, n.key) || (off == 0 && |chunk| == PAGE)
      requires file == Replay(origin, log)
      modifies this`pages, this`file, this`log
      ensures Valid() && Wrote(before, pos, chunk, file) && log == old(log) + [Put(pos, chunk)]
      ensures forall k: nat :: Cached(pages, k) <==> old(Cached(pages, k))
    {
      hide RbTree.Tree.Valid, Replay;
      var pages' := pages[n := Patch(pages[n], off, chunk)];
      forall k: nat ensures Cached(pages', k) <==> Cached(pages, k) {
        CachedMore(pages, n, Patch(pages[n], off, chunk), k);
        assert k == n.key ==> Cached(pages, k);
      }
      WriteThrough(pages, file, n, off, pos, chunk);
      SameKeys(pages, pages');
      pages := pages';
      BackendWrite(pos, chunk);
      assert cache.Valid();
    }

    /** vfs_write over a backend that serves every request in full. */
    method Write(offset: nat, data: seq<u8>) returns (out: nat)
      requires Valid() && offset + |data| <= U64_RANGE
      modifies this`pages, this`file, this`log, this`gets, cache, cache.nodes
      ensures Valid() && out == |data| && Wrote(old(file), offset, data, file)
      ensures fresh(cache.nodes - old(cache.nodes))
      ensures log == old(log) + if cached then ChunkPuts(offset, data) else [Put(offset, data)]
      ensures cached ==> Fetched(old(pages), pages, offset, |data|)
      ensures cached ==> Asked(old(gets), gets, old(pages), offset, |data|, offset + |data|)
    {
      hide RbTree.Tree.Valid, Fetched, Asked, ChunkPuts;
      if !cached {
        BackendWrite(offset, data);
        out := |data|;
      } else {
        out := WriteCached(offset, data);
      }
    }

    /** The loop of lines 260-316. */
    method WriteCached(offset: nat, data: seq<u8>) returns (done: nat)
      requires Valid() && cached && offset + |data| <= U64_RANGE
      modifies this`pages, this`file, this`log, this`gets, cache, cache.nodes
      ensures Valid() && done == |data| && Wrote(old(file), offset, data, file)
      ensures fresh(cache.nodes - old(cache.nodes)) && Fetched(old(pages), pages, offset, |data|)
      ensures log == old(log) + ChunkPuts(offset, data)
      ensures Asked(old(gets), gets, old(pages), offset, |data|, offset + |data|)
    {
      hide VNode.Valid, RbTree.Tree.Valid, Wrote, Fetched, Asked, ChunkPuts, Progress, WriteTurn;
      ProgressNone(Now(), offset, data);
      done := 0;
      while done < |data|
        invariant 0 <= done <= |data| && Valid() && fresh(cache.nodes - old(cache.nodes))
        invariant Progress(old(Now()), Now(), offset, data, done)
      {
        ghost var b, d, page := Now(), done, 0;
        done, page := WriteChunk(offset, data, done);
        ProgressMore(old(Now()), b, Now(), offset, data, d, done, page);
        TurnMoves(b, Now(), offset, data, d, done, page);
      }
      ProgressAll(old(Now()), Now(), offset, data);
    }

    // ---- whole runs

    method Perform(call: Call) returns (reply: seq<u8>)
      requires Valid() && InRange(call)
      modifies this`pages, this`file, this`log, this`gets, cache, cache.nodes
      ensures Valid() && (reply, file) == Step(old(file), call)
      ensures fresh(cache.nodes - old(cache.nodes))
    {
      hide VNode.Valid, RbTree.Tree.Valid;
      match call {
        case ReadAt(off, n) => reply := Read(off, n);
        case WriteAt(off, data) =>
          reply := [];
          var _ := Write(off, data);
      }
    }

    /** A run of calls, in the order given. */
    method Serve(calls: seq<Call>) returns (replies: seq<seq<u8>>)
      requires Valid() && forall i :: 0 <= i < |calls| ==> InRange(calls[i])
      modifies this`pages, this`file, this`log, this`gets, cache, cache.nodes
      ensures Valid() && replies == Replies(old(file), calls) && file == FinalFile(old(file), calls)
    {
      hide VNode.Valid, RbTree.Tree.Valid, Step, Replies;
      replies := [];
      var i := 0;
      while i < |calls|
        invariant 0 <= i <= |calls|
        invariant Valid() && fresh(cache.nodes - old(cache.nodes))
        invariant replies == Replies(old(file), calls[..i]) && file == FinalFile(old(file), calls[..i])
      {
        OneMore(old(file), calls, i);
        var reply := Perform(calls[i]);
        replies := replies + [reply];
        i := i + 1;
      }
      assert calls[..i] == calls;
    }

    // ---- vfs_close

    /** Lines 160-169: the page goes back to the backend, where it changes no byte. */
    method Flush(node: Node)
      requires Valid() && node in pages
      modifies this`file, this`log
      ensures Valid() && SameBytes(file, old(file)) && |file| == Max(|old(file)|, node.key + PAGE)
      ensures log == old(log) + [Put(node.key, pages[node])]
    {
      hide RbTree.Tree.Valid, Replay;
      WriteBack(file, node.key);
      WriteBackLength(file, node.key);
      StillCoherent(pages, file, WriteBytes(file, node.key, pages[node]));
      BackendWrite(node.key, pages[node]);
      assert cache.Valid();
    }

    /** Lines 173-175. */
    method Drop(node: Node, ghost s: seq<Node>)
      requires Valid() && s == cache.Contents() && Sorted(s) && s != [] && node == s[0]
      modifies this`pages, cache, cache.nodes
      ensures Valid() && cache.Contents() == s[1..] && cache.nodes == old(cache.nodes) - {node}
        && pages == old(pages) - {node}
    {
      hide RbTree.Tree.Valid, Sorted, Replay;
      assert node in s;
      Dropped(pages, file, node);
      var z := cache.Remove(node.key);
      FirstRemoved(cache.Contents(), s, node, z);
      pages := pages - {node};
      assert cache.Valid();
    }

    /**
     The pages before node are gone and each was written back once, in order; node is the first of those left; no byte
     of the file has changed.
     */
    ghost predicate Walking(visited: seq<Node>, all: seq<Node>, was: Was, node: Node?)
      reads this, cache, cache.nodes
    {
      && Valid() && SameBytes(file, was.file) && |file| == EndOf(|was.file|, visited)
      && Kept(pages, was.pages) && log == was.log + Flushed(visited, was.pages)
      && visited + cache.Contents() == all && Sorted(all)
      && node == if cache.Contents() == [] then null else cache.Contents()[0]
    }

    /** Lines 161-171: write the page back and read its successor. */
    method FlushAndStep(node: Node, ghost s: seq<Node>, ghost before: seq<u8>) returns (next: Node?)
      requires Valid() && SameBytes(file, before) && s == cache.Contents() && s != [] && node == s[0] && node in pages
      modifies this`file, this`log
      ensures Valid() && SameBytes(file, before) && |file| == Max(|old(file)|, node.key + PAGE)
      ensures log == old(log) + [Put(node.key, pages[node])]
      ensures next == if s[1..] == [] then null else s[1..][0]
    {
      ghost var f := file;
      InContents(node);
      hide RbTree.Tree.Valid, Coherent, OneKeyEach, Sorted, SameBytes, IsNext, Replay;
      Flush(node);
      SameBytesTrans(file, f, before);
      next := cache.Next(node);
      NextOfFirst(s, node, next);
    }

    /** One turn of the walk: the successor is read before the page leaves the tree, and is first afterwards. */
    method CloseOne(node: Node, ghost visited: seq<Node>, ghost all: seq<Node>, ghost was: Was) returns (next: Node?)
      requires Walking(visited, all, was, node)
      modifies this`pages, this`file, this`log, cache, cache.nodes
      ensures Walking(visited + [node], all, was, next)
      ensures node in was.pages && log == old(log) + [Put(node.key, was.pages[node])]
      ensures cache.nodes <= old(cache.nodes) && |cache.Contents()| < |old(cache.Contents())|
    {
      ghost var s, n, l := cache.Contents(), |file|, log;
      InContents(node);
      hide RbTree.Tree.Valid, Coherent, OneKeyEach, Sorted, SameBytes, VNode.Valid, VNode.Linked, RbTree.Tree.Contents;
      hide Kept, Flushed, EndOf, Replay;
      Turn(visited, s, all, was, pages, node, l, n);
      next := FlushAndStep(node, s, was.file);
      Drop(node, s);
    }

    lemma InContents(node: Node)
      requires Valid() && node in cache.Contents()
      ensures node in pages && Sorted(cache.Contents())
    {
      NodesAreInorder(cache.shape);
    }

    lemma NoContents()
      requires Valid() && cache.Contents() == []
      ensures pages == map[]
    {
      NodesAreInorder(cache.shape);
    }

    /**
     vfs_close: every cached page is written back once, in increasing order of offset, and the cache ends empty. No byte
     changes, but the file grows to the end of the last cached page.
     */
    method Close()
      requires Valid()
      modifies this`pages, this`file, this`log, cache, cache.nodes
      ensures Valid() && cache.Contents() == [] && pages == map[]
      ensures Sorted(old(cache.Contents())) && log == old(log) + Flushed(old(cache.Contents()), old(pages))
      ensures SameBytes(file, old(file)) && |file| == EndOf(|old(file)|, old(cache.Contents()))
      ensures file == old(file) <==> forall n :: n in old(pages) ==> n.key + PAGE <= |old(file)|
    {
      hide VNode.Walking, VNode.Valid, RbTree.Tree.Valid, Coherent, OneKeyEach, Sorted, Flushed, EndOf, Kept, SameBytes;
      ghost var was, all := Was(file, pages, log), cache.Contents();
      CacheValid();
      AllWithin(|file|);
      ghost var visited: seq<Node> := [];
      var node := cache.First();
      SetOut(all, was, node);
      while node != null
        invariant Walking(visited, all, was, node)
        invariant cache.nodes <= old(cache.nodes)
        decreases |cache.Contents()|
      {
        ghost var n: Node := node;
        node := CloseOne(node, visited, all, was);
        visited := visited + [n];
      }
      Arrive(visited, all, was);
    }

    lemma CacheValid()
      requires Valid()
      ensures cache.Valid() && Sorted(cache.Contents())
    {
    }

    /** Before the first turn. */
    lemma SetOut(all: seq<Node>, was: Was, node: Node?)
      requires Valid() && all == cache.Contents() && was == Was(file, pages, log)
      requires node == if all == [] then null else all[0]
      ensures Walking([], all, was, node)
    {
    }

    /** After the last turn. */
    lemma Arrive(visited: seq<Node>, all: seq<Node>, was: Was)
      requires Walking(visited, all, was, null)
      ensures Valid() && cache.Contents() == [] && pages == map[] && log == was.log + Flushed(all, was.pages)
      ensures SameBytes(file, was.file) && |file| == EndOf(|was.file|, all)
      ensures file == was.file <==> EndOf(|was.file|, all) == |was.file|
    {
      hide RbTree.Tree.Valid, Coherent, OneKeyEach, Sorted, Flushed, EndOf, Kept, SameBytes, Replay;
      assert visited == all;
      NoContents();
      SameLength(file, was.file);
    }

    /** After a request within the first page of an empty cache, that page is the only one. */
    lemma OnePage(before: Pages, n: nat)
      requires Valid() && before == map[] && Fetched(before, pages, 0, n) && 0 < n <= PAGE
      ensures
        var s := cache.Contents();
        |s| == 1 && s[0].key == 0 && s[0] in pages && pages[s[0]] == PageOf(file, 0)
    {
      NodesAreInorder(cache.shape);
      var s := cache.Contents();
      assert InSpan(0, 0, n) && Cached(pages, 0);
      var x :| x in pages && x.key == 0;
      assert x in s;
      assert pages[x] == PageOf(file, 0);
      hide Coherent, Replay, RbTree.Tree.Valid;
      forall y | y in s ensures y == x {
        assert y in pages && Cached(pages, y.key) && !Cached(before, y.key);
      }
      SoleNode(s, x);
    }

    /** The walk does not grow the file exactly if every page ends within it. */
    lemma AllWithin(n: nat)
      requires Valid()
      ensures EndOf(n, cache.Contents()) == n <==> forall x :: x in pages ==> x.key + PAGE <= n
    {
      NodesAreInorder(cache.shape);
      hide Coherent, OneKeyEach, Replay;
      var s := cache.Contents();
      if s != [] {
        var last := s[|s| - 1];
        assert last in s && last in pages;
        forall x | x in pages ensures x.key <= last.key {
          assert x in s;
        }
      }
    }
  }

  /** The file, the cached pages and the log at the start of the walk. */
  datatype Was = Was(file: seq<u8>, pages: Pages, log: seq<Put>)

  /** The writes that put the pages of s back. */
  ghost function Flushed(s: seq<Node>, pages: Pages): (puts: seq<Put>)
    ensures |puts| == |s|
  {
    seq(|s|, i requires 0 <= i < |s| => Put(s[i].key, if s[i] in pages then pages[s[i]] else []))
  }

  /** Where a file of n bytes ends once the pages of s, in order, are written back. */
  ghost function EndOf(n: nat, s: seq<Node>): nat {
    if s == [] then n else Max(n, s[|s| - 1].key + PAGE)
  }

  /** What is still cached is as it was. */
  ghost predicate Kept(pages: Pages, before: Pages) {
    forall n :: n in pages ==> n in before && pages[n] == before[n]
  }

  /** One turn, in terms of the whole walk. */
  lemma Turn(visited: seq<Node>, s: seq<Node>, all: seq<Node>, was: Was, pages: Pages, node: Node, log: seq<Put>,
             n: nat)
    requires visited + s == all && Sorted(all) && s != [] && node == s[0] && node in pages && Kept(pages, was.pages)
    requires log == was.log + Flushed(visited, was.pages) && n == EndOf(|was.file|, visited)
    ensures (visited + [node]) + s[1..] == all && Kept(pages - {node}, was.pages) && node in was.pages
      && pages[node] == was.pages[node]
    ensures log + [Put(node.key, pages[node])] == was.log + Flushed(visited + [node], was.pages)
    ensures Max(n, node.key + PAGE) == EndOf(|was.file|, visited + [node])
  {
    HeadMoves(visited, s);
    assert Flushed(visited + [node], was.pages) == Flushed(visited, was.pages) + [Put(node.key, pages[node])];
    if visited != [] {
      assert all[|visited| - 1] == visited[|visited| - 1] && all[|visited|] == node;
    }
  }

  /** A file that ends inside its first page, read once and closed, has grown to a whole page. */
  method ReadOnceAndClose(file: seq<u8>) returns (v: VNode)
    requires 0 < |file| <= PAGE
    ensures fresh(v) && v.Valid() && v.pages == map[]
    ensures |v.file| == PAGE && SameBytes(v.file, file) && (v.file == file <==> |file| == PAGE)
  {
    hide VNode.Valid, RbTree.Tree.Valid, SameBytes, Fetched;
    v := new VNode(true, file);
    ghost var before := v.pages;
    var data := v.Read(0, |file|);
    v.OnePage(before, |file|);
    v.Close();
    SameLength(v.file, file);
  }

  /**
   A new cached file written once within its first page and closed is a page long: the backend was asked for the bytes
   written, and then for the whole page.
   */
  method WriteOnceAndClose(data: seq<u8>) returns (v: VNode)
    requires 0 < |data| <= PAGE
    ensures fresh(v) && v.Valid() && v.pages == map[]
    ensures |v.file| == PAGE && v.file[..|data|] == data && (forall i :: |data| <= i < PAGE ==> v.file[i] == 0)
    ensures v.log == [Put(0, data), Put(0, v.file)]
  {
    hide VNode.Valid, RbTree.Tree.Valid, SameBytes, Fetched, WriteBytes;
    v := new VNode(true, []);
    ghost var before := v.pages;
    var n := v.Write(0, data);
    v.OnePage(before, |data|);
    WriteFacts([], 0, data);
    OneChunk(data);
    ghost var written, s, pages := v.file, v.cache.Contents(), v.pages;
    assert Flushed(s, pages) == [Put(0, PageOf(written, 0))];
    v.Close();
    OnePageFile(v.file, written, data);
  }

  /** A file of one page whose bytes are those of data. */
  lemma OnePageFile(f: seq<u8>, g: seq<u8>, data: seq<u8>)
    requires SameBytes(f, g) && |f| == PAGE && |data| <= PAGE
    requires forall k: nat :: ByteAt(g, k) == if k < |data| then data[k] else 0
    ensures f == PageOf(g, 0) && f[..|data|] == data && forall i :: |data| <= i < PAGE ==> f[i] == 0
  {
    forall i: nat | i < PAGE ensures f[i] == if i < |data| then data[i] else 0 {
      assert ByteAt(f, i) == ByteAt(g, i);
    }
  }
}
