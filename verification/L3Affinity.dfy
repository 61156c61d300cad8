/** Pinning a thread to the CPUs of one L3 cache, and asking which cache a thread is pinned to, with
    the NetBSD cpuset interface. */
module L3Affinity {
  import opened Arithmetic

  const UINT_RANGE: nat := 0x1_0000_0000
  const CHAR_BIT: nat := 8

  function Wrap(x: nat): nat {
    x % UINT_RANGE
  }

  /** A cpuset: cpuset_size is its size in bytes, so it can hold eight times as many CPUs. */
  class CpuSet {
    const bytes: nat
    var cpus: set<nat>

    constructor (bytes: nat)
      ensures this.bytes == bytes && cpus == {}
    {
      this.bytes, cpus := bytes, {};
    }

    /** cpuset_set: an index beyond the capacity is refused, and the caller ignores that. */
    method Add(cpu: nat)
      modifies this
      ensures cpus == if cpu < CHAR_BIT * bytes then old(cpus) + {cpu} else old(cpus)
    {
      if cpu < CHAR_BIT * bytes {
        cpus := cpus + {cpu};
      }
    }
  }

  /** The affinity mask the kernel keeps for a thread. */
  class Thread {
    var affinity: set<nat>

    constructor (affinity: set<nat>)
      ensures this.affinity == affinity
    {
      this.affinity := affinity;
    }

    /** util_pin_thread_to_L3; `bytes` is the size of the cpusets the system creates. */
    method PinToL3(l3: nat, cores: nat, bytes: nat)
      requires l3 < UINT_RANGE && cores < UINT_RANGE
      modifies this
      ensures affinity == PinnedTo(l3 * cores, cores, bytes)
    {
      var cpuset := new CpuSet(bytes);
      ghost var first := l3 * cores;
      var i := 0;
      while i < cores
        invariant 0 <= i <= cores
        invariant fresh(cpuset) && cpuset.bytes == bytes && cpuset.cpus == PinnedTo(first, i, bytes)
      {
        cpuset.Add(Wrap(l3 * cores + i));
        i := i + 1;
      }
      affinity := cpuset.cpus;
    }

    /** util_get_L3_for_pinned_thread; the loop runs over as many CPUs as the cpuset has bytes. */
    method L3OfPinned(cores: nat, bytes: nat) returns (l3: int)
      requires 1 <= cores < UINT_RANGE && bytes < UINT_RANGE / 2
      ensures IsAnswer(Below(affinity, bytes), cores, l3)
    {
      l3 := -1;
      var i := 0;
      while i < bytes
        invariant 0 <= i <= bytes
        invariant l3 >= -1 && IsAnswer(Below(affinity, i), cores, l3)
        invariant l3 == -1 ==> Below(affinity, i) == {}
      {
        NextCpu(affinity, i, cores, l3);
        if i in affinity {
          var x := i / cores;
          if l3 != x {
            if l3 == -1 {
              l3 := x;
            } else {
              AnotherCache(affinity, i, bytes, cores, l3);
              return -1;
            }
          }
        }
        i := i + 1;
      }
    }
  }

  /** The CPUs added by the first n turns of the pinning loop; unsigned arithmetic wraps around, and
      CPUs beyond the capacity are refused. */
  function PinnedTo(first: nat, n: nat, bytes: nat): set<nat> {
    if n == 0 then {}
    else
      var cpu := Wrap(first + (n - 1));
      if cpu < CHAR_BIT * bytes then PinnedTo(first, n - 1, bytes) + {cpu} else PinnedTo(first, n - 1, bytes)
  }

  /** The CPUs of a mask with index below n. */
  function Below(mask: set<nat>, n: nat): set<nat> {
    set cpu | cpu in mask && cpu < n
  }

  ghost predicate AllIn(mask: set<nat>, cores: nat, l3: int)
    requires cores >= 1
  {
    forall cpu :: cpu in mask ==> cpu / cores == l3
  }

  /** The answer for a mask: the one cache that holds all its CPUs, or -1 if there are none or they
      belong to several. */
  ghost predicate IsAnswer(mask: set<nat>, cores: nat, l3: int)
    requires cores >= 1
  {
    if mask != {} && exists k: nat :: AllIn(mask, cores, k) then l3 >= 0 && AllIn(mask, cores, l3) else l3 == -1
  }

  lemma SeveralCaches(mask: set<nat>, cores: nat, cpu: nat, other: nat)
    requires cores >= 1 && cpu in mask && other in mask && cpu / cores != other / cores
    ensures IsAnswer(mask, cores, -1)
  {
  }

  /** The answer with one more CPU, as long as it belongs to the same cache as those before. */
  lemma NextCpu(affinity: set<nat>, i: nat, cores: nat, l3: int)
    requires cores >= 1 && l3 >= -1 && IsAnswer(Below(affinity, i), cores, l3)
    requires l3 == -1 ==> Below(affinity, i) == {}
    ensures i !in affinity ==> Below(affinity, i + 1) == Below(affinity, i)
    ensures i in affinity && (l3 == -1 || l3 == i / cores) ==>
              Below(affinity, i + 1) != {} && IsAnswer(Below(affinity, i + 1), cores, i / cores)
  {
    assert Below(affinity, i + 1) == if i in affinity then Below(affinity, i) + {i} else Below(affinity, i);
    if i in affinity && (l3 == -1 || l3 == i / cores) {
      OneCache(Below(affinity, i + 1), cores, i / cores, i);
    }
  }

  lemma OneCache(mask: set<nat>, cores: nat, l3: nat, cpu: nat)
    requires cores >= 1 && cpu in mask && AllIn(mask, cores, l3)
    ensures IsAnswer(mask, cores, l3)
  {
  }

  lemma AnotherCache(affinity: set<nat>, i: nat, n: nat, cores: nat, l3: int)
    requires cores >= 1 && IsAnswer(Below(affinity, i), cores, l3) && l3 != -1
    requires i in affinity && i < n && i / cores != l3
    ensures IsAnswer(Below(affinity, n), cores, -1)
  {
    var other :| other in Below(affinity, i);
    SeveralCaches(Below(affinity, n), cores, i, other);
  }

  /** In terms of CPUs: a cache if there are CPUs below the bound and it holds them all; -1 if there are
      none, or two of them in different caches. */
  lemma AnswerMeans(affinity: set<nat>, bytes: nat, cores: nat, l3: int)
    requires cores >= 1 && IsAnswer(Below(affinity, bytes), cores, l3)
    ensures l3 == -1 ==>
              (forall cpu :: cpu in affinity ==> cpu >= bytes) ||
              exists a, b :: a in affinity && b in affinity && a < bytes && b < bytes && a / cores != b / cores
    ensures l3 != -1 ==>
              (exists cpu :: cpu in affinity && cpu < bytes) &&
              forall cpu :: cpu in affinity && cpu < bytes ==> cpu / cores == l3
  {
    var mask := Below(affinity, bytes);
    if l3 == -1 && mask != {} {
      var a :| a in mask;
      assert a / cores >= 0;
      assert !AllIn(mask, cores, a / cores);
      var b :| b in mask && b / cores != a / cores;
      assert a in affinity && b in affinity;
    } else if l3 == -1 {
      assert forall c :: c in affinity && c < bytes ==> c in mask;
    } else {
      var cpu :| cpu in mask;
      assert cpu in affinity && cpu < bytes;
      assert forall c :: c in affinity && c < bytes ==> c in mask;
    }
  }

  lemma AnswerIsUnique(mask: set<nat>, cores: nat, a: int, b: int)
    requires cores >= 1 && IsAnswer(mask, cores, a) && IsAnswer(mask, cores, b)
    ensures a == b
  {
    if mask != {} {
      var cpu :| cpu in mask;
    }
  }

  /** The i-th CPU of a cache; unsigned arithmetic wraps around. */
  predicate Requested(first: nat, i: nat, cpu: nat) {
    cpu == (first + i) % 0x1_0000_0000
  }

  lemma {:induction false} PinnedToIff(first: nat, n: nat, bytes: nat, cpu: nat)
    ensures cpu in PinnedTo(first, n, bytes) <==>
            cpu < 8 * bytes && exists i: nat :: i < n && Requested(first, i, cpu)
  {
    if n > 0 {
      PinnedToIff(first, n - 1, bytes, cpu);
      if cpu == Wrap(first + (n - 1)) {
        assert Requested(first, n - 1, cpu);
      }
    }
  }

  lemma QuotientBelow(cpu: nat, l3: nat, cores: nat)
    requires cores >= 1 && cpu < l3 * cores
    ensures cpu / cores < l3
  {
  }

  /** Pinning to a cache and asking returns that cache exactly when its first CPU is below the bound of
      the query loop, which is the size of the cpuset in bytes. */
  lemma PinThenAskIff(l3: nat, cores: nat, bytes: nat, answer: int)
    requires l3 < UINT_RANGE && 1 <= cores < UINT_RANGE && bytes < UINT_RANGE / 2
    requires IsAnswer(Below(PinnedTo(l3 * cores, cores, bytes), bytes), cores, answer)
    ensures answer == l3 <==> l3 * cores < bytes
  {
    var mask := Below(PinnedTo(l3 * cores, cores, bytes), bytes);
    if l3 * cores < bytes {
      VisiblePin(l3, cores, bytes);
      AnswerIsUnique(mask, cores, answer, l3);
    } else {
      HiddenPin(l3, cores, mask, answer);
    }
  }

  lemma HiddenPin(l3: nat, cores: nat, mask: set<nat>, answer: int)
    requires cores >= 1 && IsAnswer(mask, cores, answer)
    requires forall cpu :: cpu in mask ==> cpu < l3 * cores
    ensures answer != l3
  {
    if answer >= 0 {
      var cpu :| cpu in mask;
      QuotientBelow(cpu, l3, cores);
    }
  }

  lemma VisiblePin(l3: nat, cores: nat, bytes: nat)
    requires 1 <= cores < UINT_RANGE && bytes < UINT_RANGE / 2 && l3 * cores < bytes
    ensures var mask := Below(PinnedTo(l3 * cores, cores, bytes), bytes);
            mask != {} && AllIn(mask, cores, l3) && IsAnswer(mask, cores, l3)
  {
    var first := l3 * cores;
    var mask := Below(PinnedTo(first, cores, bytes), bytes);
    PinnedToIff(first, cores, bytes, first);
    assert Requested(first, 0, first);
    assert first in mask;
    forall cpu | cpu in mask
      ensures cpu / cores == l3
    {
      PinnedInCache(l3, cores, bytes, cpu);
    }
  }

  lemma PinnedInCache(l3: nat, cores: nat, bytes: nat, cpu: nat)
    requires 1 <= cores < UINT_RANGE && bytes < UINT_RANGE / 2 && l3 * cores < bytes
    requires cpu in PinnedTo(l3 * cores, cores, bytes)
    ensures cpu / cores == l3
  {
    var first := l3 * cores;
    if l3 >= 1 {
      ProductAtLeast(l3, cores);
    }
    PinnedToIff(first, cores, bytes, cpu);
    var i: nat :| i < cores && Requested(first, i, cpu);
    NoWrap(first, cores, i);
    assert cpu == first + i;
    QuotientInRange(l3, cores, i);
  }

  lemma NoWrap(first: nat, cores: nat, i: nat)
    requires i < cores < UINT_RANGE && first < UINT_RANGE / 2 && (first == 0 || cores <= first)
    ensures Wrap(first + i) == first + i
  {
  }

  /** A thread pinned to a cache and asked right away. */
  method PinThenAsk(thread: Thread, l3: nat, cores: nat, bytes: nat) returns (answer: int)
    requires l3 < UINT_RANGE && 1 <= cores < UINT_RANGE && bytes < UINT_RANGE / 2
    modifies thread
    ensures answer == l3 <==> l3 * cores < bytes
  {
    thread.PinToL3(l3, cores, bytes);
    answer := thread.L3OfPinned(cores, bytes);
    PinThenAskIff(l3, cores, bytes, answer);
  }

  /** On a machine with n CPUs the query is right about every mask exactly when the cpuset has at least
      n bytes; one byte for eight CPUs, which suffices to hold the masks, does not do. */
  lemma QueryRightIff(n: nat, cores: nat, bytes: nat)
    requires cores >= 1
    ensures (forall mask: set<nat>, l3: int :: (forall cpu :: cpu in mask ==> cpu < n) ==>
               (IsAnswer(Below(mask, bytes), cores, l3) <==> IsAnswer(mask, cores, l3)))
            <==> n <= bytes
  {
    if n <= bytes {
      forall mask: set<nat>, l3: int | forall cpu :: cpu in mask ==> cpu < n
        ensures IsAnswer(Below(mask, bytes), cores, l3) <==> IsAnswer(mask, cores, l3)
      {
        assert Below(mask, bytes) == mask;
      }
    } else {
      var mask: set<nat> := {n - 1};
      assert Below(mask, bytes) == {};
      assert IsAnswer({}, cores, -1);
      assert AllIn(mask, cores, (n - 1) / cores);
      assert n - 1 in mask;
      assert !IsAnswer(mask, cores, -1);
    }
  }
}
