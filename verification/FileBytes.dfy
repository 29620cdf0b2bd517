/** A file as its bytes: what a backend that serves every request in full reads and writes. */
module FileBytes {
  import opened Words

  /** Past the end a file reads as zeros. */
  function ByteAt(f: seq<u8>, k: nat): u8 {
    if k < |f| then f[k] else 0
  }

  function ReadBytes(f: seq<u8>, off: nat, n: nat): (r: seq<u8>)
    ensures |r| == n && forall i :: 0 <= i < n ==> r[i] == ByteAt(f, off + i)
  {
    seq<u8>(n, i requires 0 <= i => ByteAt(f, off + i))
  }

  function Max(a: nat, b: nat): nat { if a < b then b else a }

  /** Overwrites from off on, growing the file as needed. */
  function WriteBytes(f: seq<u8>, off: nat, data: seq<u8>): seq<u8> {
    if data == [] then f
    else seq<u8>(Max(|f|, off + |data|),
                 k requires 0 <= k => if off <= k < off + |data| then data[k - off] else ByteAt(f, k))
  }

  /** g is what writing data at off makes of f. */
  ghost predicate Wrote(f: seq<u8>, off: nat, data: seq<u8>, g: seq<u8>) {
    g == WriteBytes(f, off, data)
  }

  /** Exactly the bytes from off on are replaced, and the file grows just far enough. */
  lemma WriteFacts(f: seq<u8>, off: nat, data: seq<u8>)
    ensures |WriteBytes(f, off, data)| == if data == [] then |f| else Max(|f|, off + |data|)
    ensures forall k: nat ::
      ByteAt(WriteBytes(f, off, data), k) == if off <= k < off + |data| then data[k - off] else ByteAt(f, k)
  {
  }

  /** Files are equal when they have the same length and bytes. */
  lemma SameFile(f: seq<u8>, g: seq<u8>)
    requires |f| == |g| && forall k: nat :: ByteAt(f, k) == ByteAt(g, k)
    ensures f == g
  {
    forall k | 0 <= k < |f| ensures f[k] == g[k] {
      assert ByteAt(f, k) == ByteAt(g, k);
    }
  }

  /** Writing in pieces is writing at once. */
  lemma WriteSplit(f: seq<u8>, off: nat, a: seq<u8>, b: seq<u8>)
    ensures WriteBytes(WriteBytes(f, off, a), off + |a|, b) == WriteBytes(f, off, a + b)
  {
    WriteFacts(f, off, a);
    WriteFacts(WriteBytes(f, off, a), off + |a|, b);
    WriteFacts(f, off, a + b);
    SameFile(WriteBytes(WriteBytes(f, off, a), off + |a|, b), WriteBytes(f, off, a + b));
  }

  lemma ReadSplit(f: seq<u8>, off: nat, m: nat, n: nat)
    ensures ReadBytes(f, off, m) + ReadBytes(f, off + m, n) == ReadBytes(f, off, m + n)
  {
  }

  // ---- pages

  function PageOf(f: seq<u8>, key: nat): seq<u8> { ReadBytes(f, key, PAGE) }

  /** The bytes from i on replaced. */
  function Patch(s: seq<u8>, i: nat, data: seq<u8>): (r: seq<u8>)
    requires i + |data| <= |s|
  {
    s[..i] + data + s[i + |data|..]
  }

  /** The page a request falls into. */
  lemma PagePart(f: seq<u8>, key: nat, i: nat, n: nat)
    requires i + n <= PAGE
    ensures PageOf(f, key)[i..i + n] == ReadBytes(f, key + i, n)
  {
  }

  lemma PagePatched(f: seq<u8>, key: nat, i: nat, data: seq<u8>)
    requires i + |data| <= PAGE
    ensures PageOf(WriteBytes(f, key + i, data), key) == Patch(PageOf(f, key), i, data)
  {
    WriteFacts(f, key + i, data);
    var p, q := PageOf(WriteBytes(f, key + i, data), key), Patch(PageOf(f, key), i, data);
    forall j | 0 <= j < PAGE ensures p[j] == q[j] {
      assert p[j] == ByteAt(WriteBytes(f, key + i, data), key + j);
    }
  }

  lemma PageUntouched(f: seq<u8>, off: nat, data: seq<u8>, key: nat)
    requires off + |data| <= key || key + PAGE <= off
    ensures PageOf(WriteBytes(f, off, data), key) == PageOf(f, key)
  {
    WriteFacts(f, off, data);
  }

  /** A full page needs no earlier content. */
  lemma FullPatch(s: seq<u8>, data: seq<u8>)
    requires |s| == |data|
    ensures Patch(s, 0, data) == data
  {
  }

  /** Writing back bytes that are already there changes no byte. */
  lemma WriteBack(f: seq<u8>, key: nat)
    ensures SameBytes(WriteBytes(f, key, PageOf(f, key)), f)
  {
    WriteFacts(f, key, PageOf(f, key));
  }

  /** Same bytes everywhere; the length may differ by trailing zeros. */
  ghost predicate SameBytes(f: seq<u8>, g: seq<u8>) {
    forall k: nat :: ByteAt(f, k) == ByteAt(g, k)
  }

  lemma SamePages(f: seq<u8>, g: seq<u8>, key: nat)
    requires SameBytes(f, g)
    ensures PageOf(f, key) == PageOf(g, key)
  {
    var p, q := PageOf(f, key), PageOf(g, key);
    forall i | 0 <= i < PAGE ensures p[i] == q[i] {
      assert ByteAt(f, key + i) == ByteAt(g, key + i);
    }
  }

  lemma SameBytesTrans(f: seq<u8>, g: seq<u8>, h: seq<u8>)
    requires SameBytes(f, g) && SameBytes(g, h)
    ensures SameBytes(f, h)
  {
    forall k: nat ensures ByteAt(f, k) == ByteAt(h, k) {
      assert ByteAt(f, k) == ByteAt(g, k);
    }
  }

  lemma WroteNothing(f: seq<u8>, off: nat, data: seq<u8>)
    ensures Wrote(f, off, data[..0], f)
  {
    assert data[..0] == [];
  }

  /** A prefix of the data written, then the next piece behind it. */
  lemma WroteMore(f: seq<u8>, off: nat, data: seq<u8>, d: nat, e: nat, g: seq<u8>, h: seq<u8>)
    requires d <= e <= |data| && Wrote(f, off, data[..d], g) && Wrote(g, off + d, data[d..e], h)
    ensures Wrote(f, off, data[..e], h)
  {
    WriteSplit(f, off, data[..d], data[d..e]);
    assert data[..d] + data[d..e] == data[..e];
  }

  // ---- the backend's log

  /** One write the backend was asked for. */
  datatype Put = Put(off: nat, data: seq<u8>)

  /** The file the writes make of f. */
  ghost function Replay(f: seq<u8>, puts: seq<Put>): seq<u8> {
    if puts == [] then f
    else WriteBytes(Replay(f, puts[..|puts| - 1]), puts[|puts| - 1].off, puts[|puts| - 1].data)
  }

  lemma ReplayMore(f: seq<u8>, puts: seq<Put>, p: Put)
    ensures Replay(f, puts + [p]) == WriteBytes(Replay(f, puts), p.off, p.data)
  {
    assert (puts + [p])[..|puts|] == puts;
  }

  /** A page written back ends at its last byte, and so does the file if it ended before. */
  lemma WriteBackLength(f: seq<u8>, key: nat)
    ensures |WriteBytes(f, key, PageOf(f, key))| == Max(|f|, key + PAGE)
  {
    WriteFacts(f, key, PageOf(f, key));
  }

  /** With the same bytes, the length decides. */
  lemma SameLength(f: seq<u8>, g: seq<u8>)
    requires SameBytes(f, g)
    ensures f == g <==> |f| == |g|
  {
    if |f| == |g| {
      SameFile(f, g);
    }
  }
}
