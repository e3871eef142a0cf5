/** How `Dispatch` and `DispatchReader` cut a message into frames, and how `merge` puts it together again. */
module Fragments {
  import opened Wrappers
  import opened Bytes

  /** More to come, the last fragment, or the frame that cancels the stream. */
  datatype Mark = More | Final | Cancel

  datatype Frag = Frag(payload: seq<byte>, mark: Mark)

  /** One call of `Dispatch` or `DispatchReader`, as the fragments it will try to write. */
  datatype Job = Job(op: byte, frags: seq<Frag>)

  /** Only the last fragment may end the message or cancel it. */
  predicate WellMarked(frags: seq<Frag>)
  {
    frags != [] && forall i :: 0 <= i < |frags| - 1 ==> frags[i].mark == More
  }

  /** All payload bytes, in order. */
  function Concat(frags: seq<Frag>): (p: seq<byte>)
  {
    if frags == [] then [] else Concat(frags[..|frags| - 1]) + frags[|frags| - 1].payload
  }

  lemma {:induction false} ConcatSnoc(frags: seq<Frag>, f: Frag)
    ensures Concat(frags + [f]) == Concat(frags) + f.payload
  {
    assert (frags + [f])[..|frags|] == frags;
  }

  lemma {:induction false} ConcatOne(f: Frag)
    ensures Concat([f]) == f.payload
  {
    assert [f] == [] + [f];
    ConcatSnoc([], f);
  }

  lemma {:induction false} ConcatCons(f: Frag, frags: seq<Frag>)
    ensures Concat([f] + frags) == f.payload + Concat(frags)
  {
    if frags == [] {
      assert [f] + frags == [f];
      ConcatOne(f);
    } else {
      hide Concat;
      var g, last := frags[..|frags| - 1], frags[|frags| - 1];
      ConcatCons(f, g);
      assert frags == g + [last] && [f] + frags == ([f] + g) + [last];
      ConcatSnoc(g, last);
      ConcatSnoc([f] + g, last);
    }
  }

  // ---------------------------------------------------------------- Dispatch

  /** The partition `split` makes: full chunks while more than one chunk is left. */
  function SplitSpec(p: seq<byte>, limit: nat): (frags: seq<Frag>)
    requires limit > 0
    decreases |p|
  {
    if |p| <= limit then [Frag(p, Final)] else [Frag(p[..limit], More)] + SplitSpec(p[limit..], limit)
  }

  function ChunkCount(n: nat, limit: nat): (k: nat)
    requires limit > 0
  {
    if n == 0 then 1 else if n / limit * limit < n then n / limit + 1 else n / limit
  }

  /** Where chunk i of a message of n bytes starts and ends, and whether it is the last. */
  datatype Chunk = Chunk(lo: nat, hi: nat, isComplete: bool)

  function ChunkAt(n: nat, limit: nat, i: nat): (c: Chunk)
    requires limit > 0
  {
    Chunk(i * limit, if (i + 1) * limit > n then n else (i + 1) * limit, i == ChunkCount(n, limit) - 1)
  }

  /** The count is the ceiling of n / limit, and one for the empty message. */
  lemma {:induction false} ChunkCountIsCeiling(n: nat, limit: nat)
    requires limit > 0
    ensures var k := ChunkCount(n, limit);
            k >= 1 && (k - 1) * limit <= n <= k * limit && (n > 0 ==> (k - 1) * limit < n)
  {
    var q := n / limit;
    assert n == q * limit + n % limit;
    if n > 0 && q * limit == n {
      assert q >= 1;
      assert (q - 1) * limit == q * limit - limit;
    } else {
      assert (q + 1) * limit == q * limit + limit;
    }
  }

  lemma {:induction false} ChunkCountStep(n: nat, limit: nat)
    requires limit > 0 && n > limit
    ensures ChunkCount(n, limit) == 1 + ChunkCount(n - limit, limit)
  {
    var q, r := n / limit, n % limit;
    assert n == q * limit + r;
    assert n - limit == (q - 1) * limit + r by {
      assert (q - 1) * limit == q * limit - limit;
    }
    assert q >= 1;
    ModUnique(n - limit, limit, q - 1, r);
    assert (q - 1) * limit < n - limit <==> q * limit < n;
  }

  /** Full chunks that announce more, then a last one that ends the message. */
  predicate FullButLast(frags: seq<Frag>, limit: nat)
  {
    && frags != []
    && (forall i :: 0 <= i < |frags| - 1 ==> frags[i].mark == More && |frags[i].payload| == limit)
    && frags[|frags| - 1].mark == Final && |frags[|frags| - 1].payload| <= limit
  }

  lemma {:induction false} OneChunk(p: seq<byte>, limit: nat)
    requires limit > 0 && |p| <= limit
    ensures ChunkCount(|p|, limit) == 1 && Concat([Frag(p, Final)]) == p
  {
    ConcatOne(Frag(p, Final));
    if |p| == limit {
      ModUnique(|p|, limit, 1, 0);
    } else if |p| > 0 {
      ModUnique(|p|, limit, 0, |p|);
    }
  }

  /**
   * `split` is an exact partition: ceil(n / limit) chunks (one when n = 0), consecutive, each full but perhaps the
   * last, and exactly the last marked complete.
   */
  lemma {:induction false} SplitIsPartition(p: seq<byte>, limit: nat)
    requires limit > 0
    ensures |SplitSpec(p, limit)| == ChunkCount(|p|, limit)
    ensures FullButLast(SplitSpec(p, limit), limit)
    ensures Concat(SplitSpec(p, limit)) == p
    decreases |p|
  {
    hide Concat, ChunkCount;
    if |p| <= limit {
      OneChunk(p, limit);
    } else {
      SplitIsPartition(p[limit..], limit);
      ConcatCons(Frag(p[..limit], More), SplitSpec(p[limit..], limit));
      ChunkCountStep(|p|, limit);
    }
  }

  lemma {:induction false} Times(a: nat, b: nat, limit: nat)
    requires a <= b
    ensures a * limit <= b * limit && (a + 1) * limit == a * limit + limit
  {
    assert b * limit == a * limit + (b - a) * limit;
  }

  /** Chunk i in terms of what is left at its start: all of it, if that fits, or the next `limit` bytes. */
  lemma {:induction false} ChunkOfRest(n: nat, limit: nat, i: nat)
    requires limit > 0 && i < ChunkCount(n, limit)
    ensures i * limit <= n
    ensures var b, last := i * limit, n - i * limit <= limit;
            && ChunkAt(n, limit, i) == Chunk(b, if last then n else b + limit, last)
            && (last <==> i + 1 == ChunkCount(n, limit))
  {
    var k := ChunkCount(n, limit);
    ChunkCountIsCeiling(n, limit);
    hide ChunkCount;
    Times(i, k - 1, limit);
    Times(i, i, limit);
    if i + 1 < k {
      Times(i + 1, k - 1, limit);
    }
  }

  lemma {:induction false} ChunkBounds(n: nat, limit: nat, i: nat)
    requires limit > 0 && i < ChunkCount(n, limit)
    ensures ChunkAt(n, limit, i).lo <= ChunkAt(n, limit, i).hi <= n
  {
    hide ChunkCount, ChunkAt;
    ChunkOfRest(n, limit, i);
  }

  lemma {:induction false} ChunkShift(n: nat, limit: nat, i: nat)
    requires limit > 0 && n > limit && 1 <= i
    ensures var c, d := ChunkAt(n, limit, i), ChunkAt(n - limit, limit, i - 1);
            c == Chunk(d.lo + limit, d.hi + limit, d.isComplete)
  {
    hide ChunkCount;
    ChunkCountStep(n, limit);
    Times(i - 1, i, limit);
    Times(i, i, limit);
  }

  lemma {:induction false} OneOrMore(p: seq<byte>, limit: nat)
    requires limit > 0 && ChunkCount(|p|, limit) > 1
    ensures |p| > limit
  {
    hide ChunkCount;
    if |p| <= limit {
      OneChunk(p, limit);
    }
  }

  predicate IsChunk(f: Frag, p: seq<byte>, c: Chunk)
  {
    c.lo <= c.hi <= |p| && f == Frag(p[c.lo..c.hi], if c.isComplete then Final else More)
  }

  /** The first chunk: all of a message that fits, or its first `limit` bytes. */
  lemma {:induction false} SplitAtFirst(p: seq<byte>, limit: nat)
    requires limit > 0
    ensures IsChunk(SplitSpec(p, limit)[0], p, ChunkAt(|p|, limit, 0))
  {
    hide ChunkCount, ChunkAt;
    ChunkCountIsCeiling(|p|, limit);
    ChunkOfRest(|p|, limit, 0);
    assert p[0..|p|] == p;
  }

  /** A later chunk is one of what is left after the first. */
  lemma {:induction false} ChunkOfTail(f: Frag, p: seq<byte>, limit: nat, i: nat)
    requires limit > 0 && |p| > limit && 1 <= i
    requires IsChunk(f, p[limit..], ChunkAt(|p| - limit, limit, i - 1))
    ensures IsChunk(f, p, ChunkAt(|p|, limit, i))
  {
    hide ChunkCount, ChunkAt;
    ChunkShift(|p|, limit, i);
    var c := ChunkAt(|p|, limit, i);
    assert p[limit..][c.lo - limit..c.hi - limit] == p[c.lo..c.hi];
  }

  /** Chunk i is the slice p[i*limit .. min((i+1)*limit, n)]. */
  lemma {:induction false} SplitAt(p: seq<byte>, limit: nat, i: nat)
    requires limit > 0 && i < ChunkCount(|p|, limit)
    ensures |SplitSpec(p, limit)| == ChunkCount(|p|, limit)
    ensures var c := ChunkAt(|p|, limit, i);
            && c.lo <= c.hi <= |p|
            && SplitSpec(p, limit)[i] == Frag(p[c.lo..c.hi], if c.isComplete then Final else More)
    decreases |p|
  {
    hide ChunkCount, ChunkAt, Concat, FullButLast;
    SplitIsPartition(p, limit);
    if i == 0 {
      SplitAtFirst(p, limit);
    } else {
      OneOrMore(p, limit);
      ChunkCountStep(|p|, limit);
      SplitAt(p[limit..], limit, i - 1);
      ChunkOfTail(SplitSpec(p, limit)[i], p, limit, i);
    }
  }

  /** `split`: the chunks are ranges of the caller's buffer, filled in a loop. */
  method Split(size: nat, limit: nat) returns (result: array<Chunk>)
    requires limit > 0
    ensures fresh(result) && result.Length == ChunkCount(size, limit)
    ensures forall i :: 0 <= i < result.Length ==> result[i] == ChunkAt(size, limit, i)
  {
    if size == 0 {
      result := new Chunk[1](_ => Chunk(0, 0, true));
      assert ChunkAt(0, limit, 0) == Chunk(0, 0, true);
      return;
    }
    var chunks := size / limit;
    if chunks * limit < size {
      chunks := chunks + 1;
    }
    result := new Chunk[chunks](_ => Chunk(0, 0, false));
    for i := 0 to chunks
      invariant forall j :: 0 <= j < i ==> result[j] == ChunkAt(size, limit, j)
    {
      var l, r := i * limit, (i + 1) * limit;
      if r > size {
        r := size;
      }
      result[i] := Chunk(l, r, i == chunks - 1);
    }
  }

  // ---------------------------------------------------------------- DispatchReader

  /** How one Read of the source ends: no error, io.EOF, or another error; data may come with any of them. */
  datatype ReadEnd = NoError | AtEof | Failed

  datatype ReadResult = ReadResult(data: seq<byte>, end: ReadEnd)

  function MarkOf(end: ReadEnd): Mark
  {
    match end
    case NoError => More
    case AtEof => Final
    case Failed => Cancel
  }

  /** The frames of `DispatchReader`: one a Read, up to and including the first that reports an error. */
  function ReaderFrags(rs: seq<ReadResult>): (frags: seq<Frag>)
  {
    if rs == [] then []
    else if rs[0].end == NoError then [Frag(rs[0].data, More)] + ReaderFrags(rs[1..])
    else [Frag(rs[0].data, MarkOf(rs[0].end))]
  }

  /** The bytes the source produced up to and including its first error. */
  function DataRead(rs: seq<ReadResult>): (p: seq<byte>)
  {
    if rs == [] then []
    else if rs[0].end == NoError then rs[0].data + DataRead(rs[1..])
    else rs[0].data
  }

  /** How the source ended, `NoError` if it has not ended yet. */
  function HowEnded(rs: seq<ReadResult>): (end: ReadEnd)
  {
    if rs == [] then NoError
    else if rs[0].end == NoError then HowEnded(rs[1..])
    else rs[0].end
  }

  lemma {:induction false} ReaderFragsFacts(rs: seq<ReadResult>)
    requires rs != []
    ensures var frags := ReaderFrags(rs);
            && WellMarked(frags)
            && frags[|frags| - 1].mark == MarkOf(HowEnded(rs))
            && Concat(frags) == DataRead(rs)
  {
    var f := Frag(rs[0].data, MarkOf(rs[0].end));
    if rs[0].end == NoError && |rs| > 1 {
      ReaderFragsFacts(rs[1..]);
      hide Concat;
      assert ReaderFrags(rs) == [f] + ReaderFrags(rs[1..]);
      ConcatCons(f, ReaderFrags(rs[1..]));
    } else {
      assert rs[1..] == [] || rs[0].end != NoError;
      hide Concat;
      assert ReaderFrags(rs) == [f];
      ConcatOne(f);
    }
  }

  function Data(rs: seq<ReadResult>): (ps: seq<seq<byte>>)
  {
    seq(|rs|, i requires 0 <= i < |rs| => rs[i].data)
  }

  /**
   * One frame a read, with its data, up to the first read that reports an error, or to the last there was; EOF ends
   * the message, any other error cancels it.
   */
  lemma {:induction false} ReaderFragsAt(rs: seq<ReadResult>)
    ensures var frags := ReaderFrags(rs);
            && |frags| <= |rs|
            && (|frags| == |rs| || (frags != [] && rs[|frags| - 1].end != NoError))
            && (forall k :: 0 <= k < |frags| ==>
                  && frags[k].payload == rs[k].data
                  && (frags[k].mark == Final <==> rs[k].end == AtEof)
                  && (frags[k].mark == Cancel <==> rs[k].end == Failed)
                  && (k < |frags| - 1 ==> rs[k].end == NoError))
  {
    if rs != [] {
      ReaderFragsAt(rs[1..]);
    }
  }

  /** Read is what those reads returned, one after the other, and the last of them says how the source ended. */
  lemma {:induction false} DataReadIs(rs: seq<ReadResult>)
    ensures var n := |ReaderFrags(rs)|;
            && n <= |rs| && DataRead(rs) == Flatten(Data(rs[..n]))
            && HowEnded(rs) == if n == 0 then NoError else rs[n - 1].end
  {
    ReaderFragsAt(rs);
    if rs != [] {
      var n := |ReaderFrags(rs)|;
      assert Data(rs[..n])[0] == rs[0].data;
      if rs[0].end == NoError {
        DataReadIs(rs[1..]);
        assert Data(rs[..n])[1..] == Data(rs[1..][..n - 1]);
      } else {
        assert Data(rs[..n])[1..] == [];
      }
    }
  }

  /** The loop of `DispatchReader` over the results its source gives. */
  method ReadLoop(rs: seq<ReadResult>) returns (frags: seq<Frag>)
    ensures frags == ReaderFrags(rs)
  {
    frags := [];
    var i := 0;
    while i < |rs|
      invariant 0 <= i <= |rs|
      invariant ReaderFrags(rs) == frags + ReaderFrags(rs[i..])
    {
      var r := rs[i];
      if r.end != NoError {
        frags := frags + [Frag(r.data, if r.end == AtEof then Final else Cancel)];
        return;
      }
      frags := frags + [Frag(r.data, More)];
      i := i + 1;
    }
  }

  // ---------------------------------------------------------------- merge

  /** The two fields of a received message that `merge` updates when nobody reads it by chunks. */
  datatype Partial = Partial(entity: seq<byte>, isComplete: bool)

  function Merge(m: Partial, more: Frag): (r: Partial)
  {
    Partial(m.entity + more.payload, more.mark == Final)
  }

  function MergeAll(frags: seq<Frag>): (r: Partial)
    requires frags != []
  {
    var n := |frags| - 1;
    if n == 0 then Partial(frags[0].payload, frags[0].mark == Final) else Merge(MergeAll(frags[..n]), frags[n])
  }

  lemma {:induction false} MergeAllConcat(frags: seq<Frag>)
    requires frags != []
    ensures MergeAll(frags) == Partial(Concat(frags), frags[|frags| - 1].mark == Final)
  {
    var n := |frags| - 1;
    if n == 0 {
      assert frags[..0] == [];
    } else {
      MergeAllConcat(frags[..n]);
    }
  }

  /** Merging all the chunks in order gives the message back, complete. */
  lemma {:induction false} MergeUndoesSplit(p: seq<byte>, limit: nat)
    requires limit > 0
    ensures MergeAll(SplitSpec(p, limit)) == Partial(p, true)
  {
    SplitIsPartition(p, limit);
    MergeAllConcat(SplitSpec(p, limit));
  }

  lemma {:induction false} EmptyConcat(frags: seq<Frag>)
    ensures frags == [] ==> Concat(frags) == []
  {
  }

  lemma {:induction false} PrefixOfSplit(p: seq<byte>, limit: nat, k: nat)
    requires limit > 0 && 1 <= k < ChunkCount(|p|, limit)
    ensures |SplitSpec(p, limit)| == ChunkCount(|p|, limit) && k * limit < |p|
    ensures Concat(SplitSpec(p, limit)[..k]) == p[..k * limit]
    decreases |p|
  {
    hide ChunkCount, Concat, FullButLast;
    SplitIsPartition(p, limit);
    OneOrMore(p, limit);
    ChunkCountStep(|p|, limit);
    var frags, rest := SplitSpec(p, limit), p[limit..];
    var first, more := Frag(p[..limit], More), SplitSpec(rest, limit);
    assert frags == [first] + more;
    hide SplitSpec;
    SplitIsPartition(rest, limit);
    assert frags[..k] == [first] + more[..k - 1];
    ConcatCons(first, more[..k - 1]);
    Times(k - 1, k, limit);
    if k == 1 {
      EmptyConcat(more[..0]);
    } else {
      PrefixOfSplit(rest, limit, k - 1);
      assert p[..k * limit] == p[..limit] + rest[..(k - 1) * limit];
    }
  }

  /** Merging only some of them gives that part of the message, still incomplete. */
  lemma {:induction false} MergePartOfSplit(p: seq<byte>, limit: nat, k: nat)
    requires limit > 0 && 1 <= k < ChunkCount(|p|, limit)
    ensures |SplitSpec(p, limit)| == ChunkCount(|p|, limit) && k * limit < |p|
    ensures MergeAll(SplitSpec(p, limit)[..k]) == Partial(p[..k * limit], false)
  {
    hide ChunkCount, MergeAll, Concat;
    var frags := SplitSpec(p, limit);
    SplitIsPartition(p, limit);
    MergeAllConcat(frags[..k]);
    PrefixOfSplit(p, limit, k);
  }
}
