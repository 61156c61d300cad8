/** Clearing a range of a GPU buffer with a repeated byte pattern, in the form that lowers the
    pattern to a 32-bit value and fills dwords with one of two DMA engines. */
module BufferClear {
  import opened Arithmetic

  const CP_DMA_CLEAR_PERF_THRESHOLD: nat := 32 * 1024

  datatype Engine = Sdma | CpDma | BufferWrite | Blitter

  /** One fill the context has issued. */
  datatype Fill = Fill(engine: Engine, offset: nat, size: nat)

  // ---------- Bytes of a little-endian dword ----------

  function DwordBytes(d: bv32): (b: seq<bv8>)
    ensures |b| == 4
  {
    [(d & 0xff) as bv8, ((d >> 8) & 0xff) as bv8, ((d >> 16) & 0xff) as bv8, (d >> 24) as bv8]
  }

  function Pack(b0: bv8, b1: bv8, b2: bv8, b3: bv8): bv32 {
    b0 as bv32 | (b1 as bv32 << 8) | (b2 as bv32 << 16) | (b3 as bv32 << 24)
  }

  function LoadDword(v: seq<bv8>, i: nat): bv32
    requires 4 * i + 4 <= |v|
  {
    Pack(v[4 * i], v[4 * i + 1], v[4 * i + 2], v[4 * i + 3])
  }

  function LoadHalf(v: seq<bv8>): bv32
    requires 2 <= |v|
  {
    v[0] as bv32 | (v[1] as bv32 << 8)
  }

  /** The sizes of pattern the interface allows. */
  predicate PatternSize(n: nat) {
    n in {1, 2, 4, 8, 12, 16}
  }

  ghost predicate AllDwordsEqual(v: seq<bv8>) {
    forall i :: 0 <= i && 4 * i + 4 <= |v| ==> LoadDword(v, i) == LoadDword(v, 0)
  }

  /** The least significant byte comes first. */
  lemma LittleEndian(d: bv32)
    ensures var b := DwordBytes(d);
            d == b[0] as bv32 | (b[1] as bv32 << 8) | (b[2] as bv32 << 16) | (b[3] as bv32 << 24)
  {
  }

  lemma PackedBytes(b0: bv8, b1: bv8, b2: bv8, b3: bv8)
    ensures DwordBytes(Pack(b0, b1, b2, b3)) == [b0, b1, b2, b3]
  {
  }

  /** The dword an n-byte pattern is expanded to, when n is at most four. */
  function Expanded(v: seq<bv8>): bv32
    requires |v| in {1, 2} || |v| >= 4
  {
    if |v| == 1 then
      var d := v[0] as bv32;
      d | (d << 8) | (d << 16) | (d << 24)
    else if |v| == 2 then
      var d := LoadHalf(v);
      d | (d << 16)
    else LoadDword(v, 0)
  }

  /** The k-th byte of v written over and over. */
  function Repeated(v: seq<bv8>, k: nat): bv8
    requires |v| > 0
  {
    if k < |v| then v[k] else Repeated(v, k - |v|)
  }

  lemma {:induction false} RepeatedIsModulo(v: seq<bv8>, k: nat)
    requires |v| > 0
    ensures Repeated(v, k) == v[k % |v|]
  {
    if k >= |v| {
      RepeatedIsModulo(v, k - |v|);
      ModuloOfDifference(k, |v|);
    }
  }

  lemma ModuloOfDifference(k: nat, n: nat)
    requires 0 < n <= k
    ensures (k - n) % n == k % n
  {
    var q, r := k / n, k % n;
    assert k - n == (q - 1) * n + r;
    QuotientInRange(q - 1, n, r);
  }

  /** start is a multiple of the length of v. */
  predicate PeriodStart(v: seq<bv8>, start: nat)
    requires |v| > 0
  {
    start == 0 || (start >= |v| && PeriodStart(v, start - |v|))
  }

  lemma {:induction false} RepeatedInPeriod(v: seq<bv8>, start: nat, k: nat)
    requires k < |v| && PeriodStart(v, start)
    ensures Repeated(v, start + k) == v[k]
  {
    if start > 0 {
      RepeatedInPeriod(v, start - |v|, k);
    }
  }

  /** Starting the repetition of a dword at another multiple of four changes nothing. */
  lemma {:induction false} RepeatedFromAligned(b: seq<bv8>, a: nat, k: nat)
    requires |b| == 4 && a % 4 == 0
    ensures Repeated(b, a + k) == Repeated(b, k)
  {
    if a > 0 {
      RepeatedFromAligned(b, a - 4, k);
    }
  }

  /** Repeating the expanded dword is repeating the pattern. */
  lemma {:induction false} ExpandedRepeatsPattern(v: seq<bv8>, k: nat)
    requires PatternSize(|v|) && (|v| > 4 ==> AllDwordsEqual(v))
    ensures Repeated(DwordBytes(Expanded(v)), k) == Repeated(v, k)
  {
    var b := DwordBytes(Expanded(v));
    ExpandedBytes(v);
    if k < 4 {
      assert Repeated(b, k) == b[k];
      if |v| < 4 {
        RepeatedIsModulo(v, k);
      }
    } else {
      ExpandedRepeatsPattern(v, k - 4);
      assert Repeated(b, k) == Repeated(b, k - 4);
      RepeatedFourBack(v, k);
    }
  }

  lemma ExpandedBytes(v: seq<bv8>)
    requires PatternSize(|v|)
    ensures var b := DwordBytes(Expanded(v));
            forall k :: 0 <= k < 4 ==> b[k] == v[k % |v|]
  {
    if |v| == 1 {
      PackedBytes(v[0], v[0], v[0], v[0]);
      assert Expanded(v) == Pack(v[0], v[0], v[0], v[0]);
    } else if |v| == 2 {
      PackedBytes(v[0], v[1], v[0], v[1]);
      assert Expanded(v) == Pack(v[0], v[1], v[0], v[1]);
    } else {
      PackedBytes(v[0], v[1], v[2], v[3]);
    }
  }

  lemma {:induction false} RepeatedFourBack(v: seq<bv8>, k: nat)
    requires PatternSize(|v|) && (|v| > 4 ==> AllDwordsEqual(v)) && k >= 4
    ensures Repeated(v, k) == Repeated(v, k - 4)
  {
    if |v| == 1 {
      assert Repeated(v, k) == Repeated(v, k - 1) == Repeated(v, k - 2) == Repeated(v, k - 3) == Repeated(v, k - 4);
    } else if |v| == 2 {
      assert Repeated(v, k) == Repeated(v, k - 2) == Repeated(v, k - 4);
    } else if |v| == 4 {
    } else if k < |v| {
      DwordsRepeat(v, k);
    } else if k >= |v| + 4 {
      RepeatedFourBack(v, k - |v|);
    } else {
      DwordsRepeat(v, k - 4);
      WrapsToStart(v, k - |v|);
    }
  }

  lemma DwordsRepeat(v: seq<bv8>, k: nat)
    requires AllDwordsEqual(v) && |v| % 4 == 0 && k < |v|
    ensures v[k] == v[k % 4]
    ensures k >= 4 ==> v[k] == v[k - 4]
  {
    DwordRepeats(v, k / 4, k % 4);
    if k >= 4 {
      DwordRepeats(v, k / 4 - 1, k % 4);
    }
  }

  lemma DwordRepeats(v: seq<bv8>, i: nat, k: nat)
    requires AllDwordsEqual(v) && 4 * i + 4 <= |v| && k < 4
    ensures v[4 * i + k] == v[k]
  {
    PackedBytes(v[4 * i], v[4 * i + 1], v[4 * i + 2], v[4 * i + 3]);
    PackedBytes(v[0], v[1], v[2], v[3]);
    assert DwordBytes(LoadDword(v, i))[k] == DwordBytes(LoadDword(v, 0))[k];
  }

  /** In terms of bytes: each is that of the first dword at the same place. */
  lemma AllDwordsEqualIff(v: seq<bv8>)
    requires |v| > 0 && |v| % 4 == 0
    ensures AllDwordsEqual(v) <==> forall k :: 0 <= k < |v| ==> v[k] == v[k % 4]
  {
    if AllDwordsEqual(v) {
      forall k | 0 <= k < |v|
        ensures v[k] == v[k % 4]
      {
        DwordsRepeat(v, k);
      }
    }
    if forall k :: 0 <= k < |v| ==> v[k] == v[k % 4] {
      forall i | 0 <= i && 4 * i + 4 <= |v|
        ensures LoadDword(v, i) == LoadDword(v, 0)
      {
        assert (4 * i) % 4 == 0 && (4 * i + 1) % 4 == 1 && (4 * i + 2) % 4 == 2 && (4 * i + 3) % 4 == 3;
      }
    }
  }

  lemma WrapsToStart(v: seq<bv8>, j: nat)
    requires AllDwordsEqual(v) && |v| % 4 == 0 && |v| > 4 && j < 4
    ensures v[j] == v[|v| - 4 + j]
  {
    DwordsRepeat(v, |v| - 4 + j);
    assert (|v| - 4 + j) % 4 == j;
  }

  lemma WholeDwords(n: nat, size: nat)
    requires PatternSize(n) && n > 4 && size % n == 0
    ensures size % 4 == 0 && n == 4 * (n / 4) && 1 <= n / 4 <= 4
  {
    var q := size / n;
    assert size == q * n;
    FourDivides(q, n / 4);
  }

  lemma FourDivides(q: nat, k: nat)
    ensures (q * (4 * k)) % 4 == 0
  {
    assert q * (4 * k) == 4 * (q * k);
  }

  // ---------- What a list of fills covers ----------

  /** The fills follow one another from lo to hi without gap or overlap. */
  predicate Tiles(fs: seq<Fill>, lo: nat, hi: nat) {
    if fs == [] then lo == hi else fs[0].offset == lo && Tiles(fs[1..], lo + fs[0].size, hi)
  }

  predicate Touches(f: Fill, x: nat) {
    f.offset <= x < f.offset + f.size
  }

  /** A tiling touches each byte of its range exactly once, and no other byte. */
  lemma {:induction false} TilesPartition(fs: seq<Fill>, lo: nat, hi: nat, x: nat)
    requires Tiles(fs, lo, hi)
    ensures lo <= hi
    ensures lo <= x < hi <==> exists i :: 0 <= i < |fs| && Touches(fs[i], x)
    ensures forall i, j :: 0 <= i < j < |fs| ==> !(Touches(fs[i], x) && Touches(fs[j], x))
  {
    if fs != [] {
      TilesPartition(fs[1..], lo + fs[0].size, hi, x);
      forall i | 0 < i < |fs|
        ensures fs[i] == fs[1..][i - 1]
      {
      }
      if exists i :: 0 <= i < |fs[1..]| && Touches(fs[1..][i], x) {
        var i :| 0 <= i < |fs[1..]| && Touches(fs[1..][i], x);
        assert Touches(fs[i + 1], x);
      }
    }
  }

  /** The bytes a fill of a range with a repeated dword leaves. */
  twostate predicate FilledWith(mem: array<bv8>, offset: nat, size: nat, d: bv32)
    requires offset + size <= mem.Length
    reads mem
  {
    forall x :: 0 <= x < mem.Length ==>
      mem[x] == if offset <= x < offset + size then Repeated(DwordBytes(d), x - offset) else old(mem[x])
  }

  method StoreDword(mem: array<bv8>, at: nat, v: seq<bv8>, p: nat)
    requires at + 4 <= mem.Length && p + 4 <= |v|
    modifies mem
    ensures forall x :: 0 <= x < mem.Length ==> mem[x] == if at <= x < at + 4 then v[p + (x - at)] else old(mem[x])
  {
    mem[at] := v[p];
    mem[at + 1] := v[p + 1];
    mem[at + 2] := v[p + 2];
    mem[at + 3] := v[p + 3];
  }

  /** Storing the dword at p of a pattern whose period begins `start` bytes behind the offset. */
  method StoreInPeriod(mem: array<bv8>, offset: nat, ghost start: nat, value: seq<bv8>, p: nat, at: nat)
    requires |value| > 0 && PeriodStart(value, start) && p + 4 <= |value|
    requires at == offset + start + p && at + 4 <= mem.Length
    modifies mem
    ensures forall x :: 0 <= x < mem.Length ==>
              mem[x] == if at <= x < at + 4 then Repeated(value, x - offset) else old(mem[x])
  {
    StoreDword(mem, at, value, p);
    forall x | at <= x < at + 4
      ensures mem[x] == Repeated(value, x - offset)
    {
      RepeatedInPeriod(value, start, p + (x - at));
    }
  }

  /** The part of a dword fill that is done in whole dwords, whichever engine does it. */
  method FillDwords(mem: array<bv8>, offset: nat, size: nat, d: bv32)
    requires size % 4 == 0 && offset + size <= mem.Length
    modifies mem
    ensures FilledWith(mem, offset, size, d)
  {
    var b := DwordBytes(d);
    var i := 0;
    while i < size
      invariant 0 <= i <= size && i % 4 == 0
      invariant forall x :: 0 <= x < mem.Length ==>
                  mem[x] == if offset <= x < offset + i then Repeated(b, x - offset) else old(mem[x])
    {
      forall k | 0 <= k < 4
        ensures Repeated(b, i + k) == b[k]
      {
        RepeatedFromAligned(b, i, k);
      }
      StoreDword(mem, offset + i, b, 0);
      i := i + 4;
    }
  }

  /** What the driver consults when it chooses an engine. */
  class SiContext {
    const hasDma: bool
    const sparse: bool
    const referenced: bool
    var fills: seq<Fill>

    constructor (hasDma: bool, sparse: bool, referenced: bool)
      ensures this.hasDma == hasDma && this.sparse == sparse && this.referenced == referenced && fills == []
    {
      this.hasDma, this.sparse, this.referenced, fills := hasDma, sparse, referenced, [];
    }

    predicate PrefersSdma(offset: nat, size: nat) {
      hasDma && !sparse && offset % 4 == 0 && (size > CP_DMA_CLEAR_PERF_THRESHOLD || !referenced)
    }

    /** The engine of a whole-dword fill: SDMA exactly if there is such a ring, the buffer is not sparse, the
        offset is aligned, and the fill is above 32 KiB or the buffer not in use. */
    predicate EngineFor(engine: Engine, start: nat, bytes: nat) {
      (engine == Sdma || engine == CpDma) &&
      (engine == Sdma <==> hasDma && !sparse && start % 4 == 0 && (bytes > 32768 || !referenced))
    }

    method SdmaClearBuffer(mem: array<bv8>, offset: nat, size: nat, d: bv32)
      requires offset % 4 == 0 && size % 4 == 0 && offset + size <= mem.Length
      modifies this, mem
      ensures FilledWith(mem, offset, size, d) && fills == old(fills) + [Fill(Sdma, offset, size)]
    {
      FillDwords(mem, offset, size, d);
      fills := fills + [Fill(Sdma, offset, size)];
    }

    method CpDmaClearBuffer(mem: array<bv8>, offset: nat, size: nat, d: bv32)
      requires size > 0 && size % 4 == 0 && offset + size <= mem.Length
      modifies this, mem
      ensures FilledWith(mem, offset, size, d) && fills == old(fills) + [Fill(CpDma, offset, size)]
    {
      FillDwords(mem, offset, size, d);
      fills := fills + [Fill(CpDma, offset, size)];
    }

    /** pipe_buffer_write of the first bytes of the clear value. */
    method WriteTail(mem: array<bv8>, offset: nat, size: nat, d: bv32)
      requires size < 4 && offset + size <= mem.Length
      modifies this, mem
      ensures FilledWith(mem, offset, size, d) && fills == old(fills) + [Fill(BufferWrite, offset, size)]
    {
      var b := DwordBytes(d);
      var i := 0;
      while i < size
        invariant 0 <= i <= size
        invariant fills == old(fills)
        invariant forall x :: 0 <= x < mem.Length ==>
                    mem[x] == if offset <= x < offset + i then Repeated(b, x - offset) else old(mem[x])
      {
        mem[offset + i] := b[i];
        i := i + 1;
      }
      fills := fills + [Fill(BufferWrite, offset, size)];
    }

    /** util_blitter_clear_buffer: a fill with `channels` dwords in turn. */
    method BlitterClearBuffer(mem: array<bv8>, offset: nat, size: nat, channels: nat, value: seq<bv8>)
      requires 1 <= channels <= 4 && |value| == 4 * channels
      requires size % 4 == 0 && offset + size <= mem.Length
      modifies this, mem
      ensures forall x :: 0 <= x < mem.Length ==>
                mem[x] == if offset <= x < offset + size then Repeated(value, x - offset) else old(mem[x])
      ensures fills == old(fills) + [Fill(Blitter, offset, size)]
    {
      var i, p := 0, 0;
      ghost var start: nat := 0;
      while i < size
        invariant 0 <= i <= size && i % 4 == 0
        invariant i == start + p && p % 4 == 0 && p < |value|
        invariant PeriodStart(value, start)
        invariant fills == old(fills)
        invariant forall x :: 0 <= x < mem.Length ==>
                    mem[x] == if offset <= x < offset + i then Repeated(value, x - offset) else old(mem[x])
      {
        StoreInPeriod(mem, offset, start, value, p, offset + i);
        i := i + 4;
        p := p + 4;
        if p == |value| {
          p, start := 0, start + |value|;
        }
      }
      fills := fills + [Fill(Blitter, offset, size)];
    }

    /** si_clear_buffer: whole dwords by one of the engines, then a tail of up to three bytes. The
        memory left does not depend on the engine; the dword pattern starts at `offset`, aligned or
        not; the fills tile the range. */
    method SiClearBuffer(mem: array<bv8>, start: nat, bytes: nat, d: bv32)
      requires start + bytes <= mem.Length
      modifies this, mem
      ensures FilledWith(mem, start, bytes, d)
      ensures old(fills) <= fills && Tiles(fills[|old(fills)|..], start, start + bytes)
      ensures forall f :: f in fills[|old(fills)|..] ==>
                if f.engine.BufferWrite? then f.size == bytes % 4 > 0 && f.offset == start + bytes / 4 * 4
                else f.size == bytes / 4 * 4 && f.offset == start &&
                     f.engine == (if PrefersSdma(start, bytes) then Sdma else CpDma)
      ensures forall f :: f in fills[|old(fills)|..] && !f.engine.BufferWrite? ==> EngineFor(f.engine, start, bytes)
    {
      var offset, size := start, bytes;
      if size == 0 {
        assert fills[|old(fills)|..] == [];
        return;
      }
      var alignedSize := size - size % 4;
      if PrefersSdma(offset, size) {
        SdmaClearBuffer(mem, offset, alignedSize, d);
        offset := offset + alignedSize;
        size := size - alignedSize;
      } else if alignedSize >= 4 {
        CpDmaClearBuffer(mem, offset, alignedSize, d);
        offset := offset + alignedSize;
        size := size - alignedSize;
      }
      if size > 0 {
        WriteTailInPhase(mem, start, offset, size, d);
      }
    }

    /** The tail behind a part filled in whole dwords: it goes on with their pattern. */
    method WriteTailInPhase(mem: array<bv8>, ghost start: nat, offset: nat, size: nat, d: bv32)
      requires start <= offset && (offset - start) % 4 == 0 && 0 < size < 4 && offset + size <= mem.Length
      modifies this, mem
      ensures forall x :: 0 <= x < mem.Length ==>
                mem[x] == if offset <= x < offset + size then Repeated(DwordBytes(d), x - start) else old(mem[x])
      ensures fills == old(fills) + [Fill(BufferWrite, offset, size)]
    {
      WriteTail(mem, offset, size, d);
      forall x | offset <= x < offset + size
        ensures mem[x] == Repeated(DwordBytes(d), x - start)
      {
        RepeatedFromAligned(DwordBytes(d), offset - start, x - offset);
      }
    }

    /** The test whether a large fill can be lowered to a dword fill. */
    method DwordsDuplicated(value: seq<bv8>) returns (duplicated: bool)
      requires |value| > 4 && |value| % 4 == 0
      ensures duplicated <==> AllDwordsEqual(value)
    {
      duplicated := true;
      var i := 1;
      while i < |value| / 4
        invariant 1 <= i <= |value| / 4
        invariant duplicated
        invariant forall j :: 0 <= j < i ==> LoadDword(value, j) == LoadDword(value, 0)
      {
        if LoadDword(value, 0) != LoadDword(value, i) {
          duplicated := false;
          break;
        }
        i := i + 1;
      }
    }

    /** The expansion of the clear value to a dword. */
    method ExpandToDword(value: seq<bv8>) returns (dword: bv32)
      requires PatternSize(|value|)
      ensures dword == Expanded(value)
    {
      match |value|
      case 1 =>
        dword := value[0] as bv32;
        dword := dword | ((dword << 8) | (dword << 16) | (dword << 24));
      case 2 =>
        dword := LoadHalf(value);
        dword := dword | (dword << 16);
      case _ =>
        dword := LoadDword(value, 0);
    }

    /** si_pipe_clear_buffer: every pattern of an allowed size is repeated over the whole range, and
        no other byte changes. */
    method SiPipeClearBuffer(mem: array<bv8>, offset: nat, size: nat, value: seq<bv8>)
      requires |value| in {1, 2, 4, 8, 12, 16} && offset % |value| == 0 && size % |value| == 0
      requires offset + size <= mem.Length
      modifies this, mem
      ensures forall x :: 0 <= x < mem.Length ==>
                mem[x] == if offset <= x < offset + size then Repeated(value, x - offset) else old(mem[x])
      ensures old(fills) <= fills && Tiles(fills[|old(fills)|..], offset, offset + size)
      ensures forall f :: f in fills[|old(fills)|..] ==>
                (f.engine.Blitter? <==> |value| > 4 && !AllDwordsEqual(value))
      ensures forall f :: f in fills[|old(fills)|..] ==>
                (f.engine.Blitter? <==> exists k :: 0 <= k < |value| && value[k] != value[k % 4]) &&
                (f.engine.Blitter? || f.engine.BufferWrite? || EngineFor(f.engine, offset, size))
    {
      if |value| % 4 == 0 {
        AllDwordsEqualIff(value);
      }
      if |value| > 4 {
        var duplicated := DwordsDuplicated(value);
        if !duplicated {
          WholeDwords(|value|, size);
          BlitterClearBuffer(mem, offset, size, |value| / 4, value);
          assert fills[|old(fills)|..] == [Fill(Blitter, offset, size)];
          return;
        }
      }
      FillWithDword(mem, offset, size, value);
    }

    /** The rest of si_pipe_clear_buffer, for patterns that a dword can stand for. */
    method FillWithDword(mem: array<bv8>, offset: nat, size: nat, value: seq<bv8>)
      requires PatternSize(|value|) && (|value| > 4 ==> AllDwordsEqual(value))
      requires offset + size <= mem.Length
      modifies this, mem
      ensures forall x :: 0 <= x < mem.Length ==>
                mem[x] == if offset <= x < offset + size then Repeated(value, x - offset) else old(mem[x])
      ensures old(fills) <= fills && Tiles(fills[|old(fills)|..], offset, offset + size)
      ensures forall f :: f in fills[|old(fills)|..] ==>
                !f.engine.Blitter? && (f.engine.BufferWrite? || EngineFor(f.engine, offset, size))
    {
      var dword := ExpandToDword(value);
      SiClearBuffer(mem, offset, size, dword);
      forall x | offset <= x < offset + size
        ensures mem[x] == Repeated(value, x - offset)
      {
        ExpandedRepeatsPattern(value, x - offset);
      }
    }
  }
}
