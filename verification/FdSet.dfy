/** A select() descriptor set kept in a buffer of socket-sized words: word 0 caches the number of
    members, the bits of the words after it are the set. */
module FdSet {
  import opened Arithmetic

  const CHAR_BIT: nat := 8

  /** The number of words of the buffer, for a limit on handles and the size of a word in bytes. */
  function BufferWords(maxHandles: nat, wordBytes: nat): nat
    requires wordBytes >= 1
  {
    maxHandles / wordBytes / CHAR_BIT + 4
  }

  /** Both divisions round down; still the words after the first have a bit for every handle, with more
      than two and at most three words to spare. */
  lemma BufferHoldsHandles(maxHandles: nat, wordBytes: nat)
    requires wordBytes >= 1
    ensures var bits := (BufferWords(maxHandles, wordBytes) - 1) * (wordBytes * CHAR_BIT);
            maxHandles + 2 * (wordBytes * 8) < bits <= maxHandles + 3 * (wordBytes * 8)
  {
    var q := maxHandles / wordBytes;
    var r := q / CHAR_BIT;
    Division(maxHandles, wordBytes);
    assert r * CHAR_BIT <= q < r * CHAR_BIT + CHAR_BIT;
    Scale(r * CHAR_BIT, q, wordBytes);
    Scale(q + 1, r * CHAR_BIT + CHAR_BIT, wordBytes);
    assert (r + 3) * (wordBytes * CHAR_BIT) == (r * CHAR_BIT) * wordBytes + 24 * wordBytes;
  }

  // ---------- Bits of a word ----------

  function Bit(w: nat, i: nat): bool {
    if i == 0 then w % 2 == 1 else Bit(w / 2, i - 1)
  }

  /** w | 1 << i */
  function WithBit(w: nat, i: nat): nat {
    if i == 0 then w / 2 * 2 + 1 else WithBit(w / 2, i - 1) * 2 + w % 2
  }

  /** w & ~(1 << i) */
  function WithoutBit(w: nat, i: nat): nat {
    if i == 0 then w / 2 * 2 else WithoutBit(w / 2, i - 1) * 2 + w % 2
  }

  lemma {:induction false} BitOfWithBit(w: nat, i: nat, j: nat)
    ensures Bit(WithBit(w, i), j) <==> j == i || Bit(w, j)
  {
    if i > 0 && j > 0 {
      BitOfWithBit(w / 2, i - 1, j - 1);
    }
  }

  lemma {:induction false} BitOfWithoutBit(w: nat, i: nat, j: nat)
    ensures Bit(WithoutBit(w, i), j) <==> j != i && Bit(w, j)
  {
    if i > 0 && j > 0 {
      BitOfWithoutBit(w / 2, i - 1, j - 1);
    }
  }

  lemma {:induction false} NoBitOfZero(j: nat)
    ensures !Bit(0, j)
  {
    if j > 0 {
      NoBitOfZero(j - 1);
    }
  }

  /** A word and a bit within it determine the descriptor. */
  lemma PlaceIsUnique(m: nat, n: nat, wordBits: nat)
    requires wordBits > 0
    ensures m == n <==> m / wordBits == n / wordBits && m % wordBits == n % wordBits
  {
    assert m == m / wordBits * wordBits + m % wordBits;
    assert n == n / wordBits * wordBits + n % wordBits;
  }

  lemma WordOfMember(n: nat, words: nat, wordBits: nat)
    requires wordBits > 0 && n < words * wordBits
    ensures n / wordBits < words
  {
    if n / wordBits >= words {
      Scale(words, n / wordBits, wordBits);
      Division(n, wordBits);
      assert false;
    }
  }

  /** The word of every handle below the limit lies in the buffer, behind the count. */
  lemma HandleInBuffer(maxHandles: nat, wordBytes: nat, fd: nat)
    requires wordBytes >= 1 && fd < maxHandles
    ensures fd / (wordBytes * 8) < BufferWords(maxHandles, wordBytes) - 1
  {
    var words, wordBits := BufferWords(maxHandles, wordBytes) - 1, wordBytes * CHAR_BIT;
    assert maxHandles <= words * wordBits by {
      BufferHoldsHandles(maxHandles, wordBytes);
    }
    WordOfMember(fd, words, wordBits);
  }

  // ---------- Sets of descriptors as words ----------

  predicate InSet(words: seq<nat>, wordBits: nat, n: nat)
    requires wordBits > 0
  {
    n / wordBits < |words| && Bit(words[n / wordBits], n % wordBits)
  }

  function MembersOf(words: seq<nat>, wordBits: nat, limit: nat): set<nat>
    requires wordBits > 0
  {
    set n: nat | n < limit && InSet(words, wordBits, n)
  }

  function PutBit(w: nat, i: nat, on: bool): nat {
    if on then WithBit(w, i) else WithoutBit(w, i)
  }

  /** The words with the bit of a descriptor changed. */
  function Put(words: seq<nat>, wordBits: nat, fd: nat, on: bool): seq<nat>
    requires wordBits > 0 && fd / wordBits < |words|
  {
    var k := fd / wordBits;
    words[k := PutBit(words[k], fd % wordBits, on)]
  }

  /** Changing one bit of one word adds or removes one descriptor. */
  lemma MembersAfterPut(words: seq<nat>, wordBits: nat, limit: nat, fd: nat, on: bool)
    requires wordBits > 0 && fd < limit && fd / wordBits < |words|
    ensures MembersOf(Put(words, wordBits, fd, on), wordBits, limit) ==
            if on then MembersOf(words, wordBits, limit) + {fd} else MembersOf(words, wordBits, limit) - {fd}
  {
    forall n: nat
      ensures InSet(Put(words, wordBits, fd, on), wordBits, n) <==> if n == fd then on else InSet(words, wordBits, n)
    {
      MemberAfterPut(words, wordBits, fd, on, n);
    }
  }

  lemma MemberAfterPut(words: seq<nat>, wordBits: nat, fd: nat, on: bool, n: nat)
    requires wordBits > 0 && fd / wordBits < |words|
    ensures InSet(Put(words, wordBits, fd, on), wordBits, n) <==> if n == fd then on else InSet(words, wordBits, n)
  {
    PlaceIsUnique(n, fd, wordBits);
    if n / wordBits < |words| {
      BitAfterPutBit(words, fd / wordBits, fd % wordBits, on, n / wordBits, n % wordBits);
    }
  }

  lemma BitAfterPutBit(words: seq<nat>, k: nat, i: nat, on: bool, l: nat, j: nat)
    requires k < |words| && l < |words|
    ensures Bit(words[k := PutBit(words[k], i, on)][l], j) <==> if l == k && j == i then on else Bit(words[l], j)
  {
    BitOfWithBit(words[k], i, j);
    BitOfWithoutBit(words[k], i, j);
  }

  lemma MembersOfZeros(words: seq<nat>, wordBits: nat, limit: nat)
    requires wordBits > 0 && forall k :: 0 <= k < |words| ==> words[k] == 0
    ensures MembersOf(words, wordBits, limit) == {}
  {
    forall n: nat
      ensures !InSet(words, wordBits, n)
    {
      NoBitOfZero(n % wordBits);
    }
  }

  lemma SizeOfPut(s: set<nat>, x: nat)
    ensures |s + {x}| == if x in s then |s| else |s| + 1
    ensures |s - {x}| == if x in s then |s| - 1 else |s|
  {
    if x in s {
      assert s + {x} == s;
    } else {
      assert s - {x} == s;
    }
  }

  class PjFdSet {
    const wordBytes: nat
    // How many words the system's fd_set takes; the limit on descriptors is that of its bits.
    const fdSetWords: nat
    const data: array<nat>

    /** The buffer as declared; its contents are arbitrary until PJ_FD_ZERO. The compile-time check
        on the sizes is that the fd_set fits behind the count. */
    constructor (maxHandles: nat, wordBytes: nat, fdSetWords: nat)
      requires wordBytes >= 1
      requires BufferWords(maxHandles, wordBytes) * wordBytes - wordBytes >= fdSetWords * wordBytes
      ensures Layout() && this.wordBytes == wordBytes && this.fdSetWords == fdSetWords
      ensures data.Length == BufferWords(maxHandles, wordBytes) && fresh(data)
      ensures forall fd: nat :: fd < maxHandles ==> 1 + fd / WordBits() < data.Length
      ensures WordBits() == 8 * wordBytes && Limit() == fdSetWords * (8 * wordBytes)
    {
      this.wordBytes, this.fdSetWords := wordBytes, fdSetWords;
      data := new nat[BufferWords(maxHandles, wordBytes)];
      new;
      if fdSetWords >= data.Length {
        Scale(data.Length, fdSetWords, wordBytes);
        assert false;
      }
      forall fd: nat | fd < maxHandles
        ensures 1 + fd / WordBits() < data.Length
      {
        HandleInBuffer(maxHandles, wordBytes, fd);
      }
    }

    predicate Layout() {
      wordBytes >= 1 && fdSetWords + 1 <= data.Length
    }

    function WordBits(): nat {
      wordBytes * CHAR_BIT
    }

    function Limit(): nat {
      fdSetWords * WordBits()
    }

    /** The fd_set proper: the words after the count. */
    function Words(): seq<nat>
      requires Layout()
      reads data
    {
      data[1..1 + fdSetWords]
    }

    function Members(): set<nat>
      requires Layout()
      reads data
    {
      MembersOf(Words(), WordBits(), Limit())
    }

    /** The count equals the number of members. */
    predicate Valid()
      reads data
    {
      Layout() && data[0] == |Members()|
    }

    /** PJ_FD_ZERO */
    method Zero()
      requires Layout()
      modifies data
      ensures Valid() && Members() == {}
      ensures data[1 + fdSetWords..] == old(data[1 + fdSetWords..])
    {
      var i := 0;
      while i < fdSetWords
        invariant 0 <= i <= fdSetWords
        invariant forall k :: 1 <= k <= i ==> data[k] == 0
        invariant forall k :: i < k < data.Length ==> data[k] == old(data[k])
      {
        data[1 + i] := 0;
        i := i + 1;
      }
      data[0] := 0;
      MembersOfZeros(Words(), WordBits(), Limit());
    }

    /** PJ_FD_ISSET */
    method IsSet(fd: nat) returns (b: bool)
      requires Layout() && fd < Limit()
      ensures b <==> fd in Members()
    {
      WordOfMember(fd, fdSetWords, WordBits());
      b := Bit(data[1 + fd / WordBits()], fd % WordBits());
    }

    /** FD_SET and FD_CLR: one bit of one word, never the count. */
    method FdPut(fd: nat, on: bool)
      requires Layout() && fd < Limit()
      modifies data
      ensures data[0] == old(data[0])
      ensures Members() == if on then old(Members()) + {fd} else old(Members()) - {fd}
      ensures data[1 + fdSetWords..] == old(data[1 + fdSetWords..])
    {
      WordOfMember(fd, fdSetWords, WordBits());
      PutMember(fd, WordBits(), Limit(), on);
    }

    /** The bit update for words of any size: the word and the bit are quotient and remainder. */
    method PutMember(fd: nat, wordBits: nat, ghost limit: nat, on: bool)
      requires Layout() && wordBits > 0 && fd / wordBits < fdSetWords && fd < limit
      modifies data
      ensures data[0] == old(data[0])
      ensures var before := old(MembersOf(Words(), wordBits, limit));
              MembersOf(Words(), wordBits, limit) == if on then before + {fd} else before - {fd}
      ensures data[1 + fdSetWords..] == old(data[1 + fdSetWords..])
    {
      MembersAfterPut(Words(), wordBits, limit, fd, on);
      StoreBit(fd / wordBits, fd % wordBits, on);
    }

    method StoreBit(k: nat, i: nat, on: bool)
      requires Layout() && k < fdSetWords
      modifies data
      ensures data[0] == old(data[0])
      ensures Words() == old(Words())[k := PutBit(old(Words())[k], i, on)]
      ensures data[1 + fdSetWords..] == old(data[1 + fdSetWords..])
    {
      data[1 + k] := PutBit(data[1 + k], i, on);
    }

    /** PJ_FD_SET */
    method Set(fd: nat)
      requires Valid() && fd < Limit()
      modifies data
      ensures Valid() && Members() == old(Members()) + {fd}
      ensures data[1 + fdSetWords..] == old(data[1 + fdSetWords..])
    {
      ghost var before := Members();
      var present := IsSet(fd);
      if !present {
        data[0] := data[0] + 1;
        assert Words() == old(Words());
      }
      assert Members() == before;
      FdPut(fd, true);
      assert Members() == before + {fd};
      SizeOfPut(before, fd);
    }

    /** PJ_FD_CLR */
    method Clear(fd: nat)
      requires Valid() && fd < Limit()
      modifies data
      ensures Valid() && Members() == old(Members()) - {fd}
      ensures data[1 + fdSetWords..] == old(data[1 + fdSetWords..])
    {
      ghost var before := Members();
      var present := IsSet(fd);
      if present {
        data[0] := data[0] - 1;
        assert Words() == old(Words());
      }
      assert Members() == before;
      FdPut(fd, false);
      assert Members() == before - {fd};
      SizeOfPut(before, fd);
    }
  }

  // ---------- Runs ----------

  datatype Op = FdZero | FdSet(fd: nat) | FdClear(fd: nat)

  function Apply(members: set<nat>, op: Op): set<nat> {
    match op
    case FdZero => {}
    case FdSet(fd) => members + {fd}
    case FdClear(fd) => members - {fd}
  }

  /** The abstract set a run of operations leads to. */
  function Expected(ops: seq<Op>): set<nat> {
    if ops == [] then {} else Apply(Expected(ops[..|ops| - 1]), ops[|ops| - 1])
  }

  lemma ExpectedSnoc(ops: seq<Op>, i: nat)
    requires i < |ops|
    ensures Expected(ops[..i + 1]) == Apply(Expected(ops[..i]), ops[i])
  {
    assert ops[..i + 1][..i] == ops[..i];
  }

  predicate Below(op: Op, limit: nat) {
    op.FdZero? || op.fd < limit
  }

  method Perform(s: PjFdSet, op: Op)
    requires s.Valid() && Below(op, s.Limit())
    modifies s.data
    ensures s.Valid() && s.Members() == Apply(old(s.Members()), op)
  {
    match op
    case FdZero => s.Zero();
    case FdSet(fd) => s.Set(fd);
    case FdClear(fd) => s.Clear(fd);
  }

  /** After PJ_FD_ZERO and any run of operations below the limit, the bits are the expected set and
      the cached count is its size. */
  method Replay(s: PjFdSet, ops: seq<Op>)
    requires s.Layout()
    requires forall i :: 0 <= i < |ops| ==> Below(ops[i], s.Limit())
    modifies s.data
    ensures s.Valid() && s.Members() == Expected(ops) && s.data[0] == |Expected(ops)|
  {
    s.Zero();
    var i := 0;
    while i < |ops|
      invariant 0 <= i <= |ops|
      invariant s.Valid() && s.Members() == Expected(ops[..i])
    {
      ExpectedSnoc(ops, i);
      Perform(s, ops[i]);
      i := i + 1;
    }
    assert ops[..i] == ops;
  }
}
