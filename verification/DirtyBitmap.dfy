/** The dirty bitmap of a block device: words of bits, one per chunk of 2048
    sectors, with a count of the set ones. */
module DirtyBitmap {
  import opened Bits
  import opened Bitmap
  import Protocol = BlockMigrationProtocol

  const CHUNK: nat := Protocol.CHUNK

  /** The set of bit numbers that a bitmap stands for. */
  ghost function Members(words: seq<Word>): set<nat> {
    set i: nat | i < 64 * |words| && TestBit(words, i)
  }

  /** The chunk numbers from a to b, both included. */
  ghost function Range(a: nat, b: int): (r: set<nat>)
    ensures forall c: nat :: c in r <==> a <= c <= b
    decreases b - a
  {
    if b < a then {} else Range(a, b - 1) + {b}
  }

  /** C's division of a possibly negative number. */
  function TruncDiv(x: int, d: nat): int
    requires d > 0
  {
    if x >= 0 then x / d else -((-x) / d)
  }

  function FirstChunk(sector: nat): nat { sector / CHUNK }

  function LastChunk(sector: nat, n: nat): int { TruncDiv(sector + n - 1, CHUNK) }

  /** For at least one sector, the chunks from the first to the last are exactly
      the chunks of the sectors, as the migration protocol assumes. */
  lemma ChunksVisited(sector: nat, n: nat)
    requires n >= 1
    ensures Range(FirstChunk(sector), LastChunk(sector, n)) == Protocol.ChunksOf(sector, n)
  {
    var a, b := FirstChunk(sector), LastChunk(sector, n);
    forall c: nat | c in Range(a, b) ensures c in Protocol.ChunksOf(sector, n) {
      var s := if c * CHUNK < sector then sector else c * CHUNK;
      assert Protocol.ChunkOf(s) == c && sector <= s < sector + n;
    }
    forall c: nat | c in Protocol.ChunksOf(sector, n) ensures c in Range(a, b) {
      var s: nat :| sector <= s < sector + n && Protocol.ChunkOf(s) == c;
      assert a <= c <= b;
    }
  }

  /** A request for no sectors is not without effect: unless it starts at a
      chunk boundary other than 0, it visits the chunk it starts in. */
  lemma EmptyRequestVisits(sector: nat)
    ensures Range(FirstChunk(sector), LastChunk(sector, 0)) ==
            if sector == 0 || sector % CHUNK != 0 then {FirstChunk(sector)} else {}
  {
    var a, b := FirstChunk(sector), LastChunk(sector, 0);
    if sector == 0 || sector % CHUNK != 0 {
      assert a == b;
      assert forall c: nat :: c in Range(a, b) <==> c == a;
    } else {
      assert b < a;
    }
  }

  lemma BitsUpdate(words: seq<Word>, c: nat, w: Word, v: bool, i: nat)
    requires c < 64 * |words| && i < 64 * |words|
    requires forall x | 0 <= x < 64 :: w[x] == if x == c % 64 then v else words[c / 64][x]
    ensures TestBit(words[c / 64 := w], i) == if i == c then v else TestBit(words, i)
  {
    if i / 64 == c / 64 {
      assert i == 64 * (i / 64) + i % 64 && c == 64 * (c / 64) + c % 64;
    }
  }

  lemma SizeUpdate(s: set<nat>, s': set<nat>, c: nat, v: bool)
    requires forall x: nat :: x in s' <==> if x == c then v else x in s
    ensures |s'| == |s| + (if v && c !in s then 1 else if !v && c in s then -1 else 0)
  {
    assert s' == if v then s + {c} else s - {c};
  }

  /** Changing one bit of one word adds or removes one chunk. */
  lemma MembersUpdate(words: seq<Word>, c: nat, w: Word, v: bool)
    requires c < 64 * |words|
    requires forall x | 0 <= x < 64 :: w[x] == if x == c % 64 then v else words[c / 64][x]
    ensures var s, s' := Members(words), Members(words[c / 64 := w]);
      && (forall x: nat :: x in s' <==> if x == c then v else x in s)
      && |s'| == |s| + (if v && c !in s then 1 else if !v && c in s then -1 else 0)
      && (c in s <==> words[c / 64][c % 64])
  {
    var words' := words[c / 64 := w];
    forall i: nat | i < 64 * |words|
      ensures TestBit(words', i) == if i == c then v else TestBit(words, i)
    {
      BitsUpdate(words, c, w, v, i);
    }
    assert forall x: nat :: x in Members(words') <==> if x == c then v else x in Members(words) by {
      hide TestBit;
    }
    SizeUpdate(Members(words), Members(words'), c, v);
  }

  /** val |= 1UL << bit or val &= ~(1UL << bit), when that changes anything. */
  method WithBit(val: Word, bit: nat, v: bool) returns (w: Word)
    requires bit < 64
    ensures forall x | 0 <= x < 64 :: w[x] == if x == bit then v else val[x]
  {
    w := val;
    if v {
      if !val[bit] { w := Or(val, OneBit(bit)); }
    } else {
      if val[bit] { w := And(val, Not(OneBit(bit))); }
    }
  }

  class Tracker {
    var bitmap: array<Word>
    var dirtyCount: int
    const total: nat
    /** The dirty chunks, for specification. */
    ghost var chunks: set<nat>

    ghost predicate Valid()
      reads this, bitmap
    {
      chunks == Members(bitmap[..]) && dirtyCount == |chunks| && total <= 131072 * bitmap.Length
    }

    /** bdrv_set_dirty_tracking: a clear bitmap with room for every chunk. */
    constructor (total: nat)
      ensures Valid() && fresh(bitmap) && this.total == total && chunks == {}
    {
      this.total := total;
      dirtyCount, chunks := 0, {};
      var size := (total + 131072 - 1) / (131072);
      bitmap := new Word[size](_ => ZERO);
      new;
      assert forall i: nat | i < 64 * bitmap.Length :: !TestBit(bitmap[..], i);
    }

    /** bdrv_get_dirty */
    method GetDirty(sector: nat) returns (dirty: bool)
      requires Valid()
      ensures dirty <==> sector < total && FirstChunk(sector) in chunks
    {
      var chunk := sector / CHUNK;
      if sector < total {
        dirty := bitmap[chunk / 64][chunk % 64];
        assert chunk in Members(bitmap[..]) <==> TestBit(bitmap[..], chunk);
      } else {
        dirty := false;
      }
    }

    /** One turn of the loop of set_dirty_bitmap. */
    method SetChunk(c: nat, dirty: bool)
      requires Valid() && c < 64 * bitmap.Length
      modifies bitmap, `dirtyCount, `chunks
      ensures Valid() && forall x: nat :: x in chunks <==> if x == c then dirty else x in old(chunks)
    {
      var idx, bit := c / 64, c % 64;
      ghost var was: seq<Word> := bitmap[..];
      var val := WithBit(bitmap[idx], bit, dirty);
      MembersUpdate(was, c, val, dirty);
      if dirty && !bitmap[idx][bit] {
        dirtyCount := dirtyCount + 1;
      } else if !dirty && bitmap[idx][bit] {
        dirtyCount := dirtyCount - 1;
      }
      bitmap[idx] := val;
      assert bitmap[..] == was[idx := val];
      chunks := Members(bitmap[..]);
    }

    /** The loop of set_dirty_bitmap. */
    method SetChunks(first: nat, end: int, dirty: bool)
      requires Valid() && end < 64 * bitmap.Length
      modifies bitmap, `dirtyCount, `chunks
      ensures Valid() && forall c: nat :: c in chunks <==> if first <= c <= end then dirty else c in old(chunks)
    {
      var start := first;
      while start <= end
        invariant Valid() && first <= start && (start <= end + 1 || start == first)
        invariant forall c: nat :: c in chunks <==> if first <= c < start then dirty else c in old(chunks)
      {
        SetChunk(start, dirty);
        start := start + 1;
      }
    }

    /** set_dirty_bitmap: afterwards the bitmap stands for the old set with the
        visited chunks added or removed, and the count is again its size. */
    method SetDirtyBitmap(sector: nat, n: nat, dirty: bool)
      requires Valid() && LastChunk(sector, n) < 64 * bitmap.Length
      modifies bitmap, `dirtyCount, `chunks
      ensures Valid()
      ensures forall c: nat :: c in chunks <==> if FirstChunk(sector) <= c <= LastChunk(sector, n) then dirty else c in old(chunks)
    {
      SetChunks(sector / CHUNK, TruncDiv(sector + n - 1, CHUNK), dirty);
    }
  }
}
