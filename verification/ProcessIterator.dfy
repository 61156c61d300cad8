/** The NetBSD process iterator: a process list fetched from the kernel with a bounded number of
    attempts, and a cursor that yields the processes whose arguments can be read. */
module ProcessIterator {
  import opened Options

  const NUL: char := '\0'
  const MAX_TRIES: nat := 10
  const SPARE: nat := 16

  /** A kernel record; only the fields the iterator looks at. */
  datatype KInfo = KInfo(pid: int, ppid: int, pgid: int, zombie: bool)

  /** What one attempt to read the list yields: the size query fails; or it announces a number of
      records and the fetch runs out of room, fails otherwise, or delivers records. */
  datatype ListReply = SizeFails | Sized(announced: nat, fetch: ListFetch)
  datatype ListFetch = NoMemory | Failed | Delivered(records: seq<KInfo>)

  /** What reading the arguments of a process yields. A failed fetch leaves arbitrary bytes. */
  datatype ArgsReply = NoArgsSize | ArgsSized(len: nat, fetch: ArgsFetch)
  datatype ArgsFetch = ArgsFailed(left: string) | Fetched(bytes: string)

  datatype Entry = Entry(pid: int, ppid: int, gid: int, exeFile: string, args: seq<string>)

  predicate NeedsRetry(r: ListReply) {
    r.Sized? && r.fetch.NoMemory?
  }

  /** The kernel delivers no more records than there is room for. */
  predicate FitsList(r: ListReply) {
    r.Sized? && r.fetch.Delivered? ==> |r.fetch.records| <= r.announced + SPARE
  }

  /** The kernel writes no more bytes than were announced. */
  predicate FitsArgs(r: ArgsReply) {
    r.ArgsSized? ==>
      match r.fetch
      case ArgsFailed(left) => |left| == r.len
      case Fetched(bytes) => |bytes| <= r.len
  }

  // ---------- Strings ----------

  /** std::string::resize: cut, or extended with NUL. */
  function Resize(s: string, n: nat): (r: string)
    ensures |r| == n
  {
    if n <= |s| then s[..n] else s + seq(n - |s|, _ => NUL)
  }

  function FindNul(s: string): (i: nat)
    requires NUL in s
    ensures i < |s| && s[i] == NUL && NUL !in s[..i]
  {
    if s[0] == NUL then 0
    else
      var i := FindNul(s[1..]);
      assert s[..i + 1] == [s[0]] + s[1..][..i];
      i + 1
  }

  /** rfind of a slash at or before a position. */
  function LastSlash(s: string, at: nat): Option<nat>
    requires at < |s|
  {
    if s[at] == '/' then Some(at) else if at == 0 then None else LastSlash(s, at - 1)
  }

  lemma {:induction false} LastSlashIsLast(s: string, at: nat)
    requires at < |s|
    ensures match LastSlash(s, at)
            case None => forall i :: 0 <= i <= at ==> s[i] != '/'
            case Some(k) => k <= at && s[k] == '/' && forall i :: k < i <= at ==> s[i] != '/'
  {
    if s[at] != '/' && at > 0 {
      LastSlashIsLast(s, at - 1);
    }
  }

  /** The name of the executable in an argument block. */
  function ExeFile(data: string): string
    requires NUL in data
  {
    var end := FindNul(data);
    LastSlashIsLast(data, end);
    match LastSlash(data, end)
    case None => data[..end]
    case Some(k) => data[k + 1..end]
  }

  /** The slash-free end of a path: all of it, or what follows a slash. */
  predicate IsBaseName(path: string, exe: string) {
    && (forall i :: 0 <= i < |exe| ==> exe[i] != '/')
    && |exe| <= |path| && path[|path| - |exe|..] == exe
    && (|exe| < |path| ==> path[|path| - |exe| - 1] == '/')
  }

  /** It is the slash-free end of the text before the first NUL: all of that text, or what follows
      a slash. */
  lemma ExeFileIsBaseName(data: string)
    requires NUL in data
    ensures IsBaseName(data[..FindNul(data)], ExeFile(data))
  {
    var end := FindNul(data);
    LastSlashIsLast(data, end);
    match LastSlash(data, end)
    case None => assert |ExeFile(data)| == end;
    case Some(k) => assert |ExeFile(data)| == end - k - 1;
  }

  /** SplitString on NUL, keeping the non-empty pieces. */
  function Tokens(s: string): seq<string> {
    if s == "" then []
    else if s[|s| - 1] == NUL then Tokens(s[..|s| - 1])
    else
      var init := Tokens(s[..|s| - 1]);
      if |s| >= 2 && s[|s| - 2] != NUL && init != [] then
        init[..|init| - 1] + [init[|init| - 1] + [s[|s| - 1]]]
      else init + [[s[|s| - 1]]]
  }

  function WithoutNul(s: string): string {
    if s == "" then ""
    else if s[|s| - 1] == NUL then WithoutNul(s[..|s| - 1])
    else WithoutNul(s[..|s| - 1]) + [s[|s| - 1]]
  }

  function Concat(ts: seq<string>): string {
    if ts == [] then "" else Concat(ts[..|ts| - 1]) + ts[|ts| - 1]
  }

  predicate AreProper(pieces: seq<string>) {
    forall i :: 0 <= i < |pieces| ==> pieces[i] != "" && NUL !in pieces[i]
  }

  lemma NextPiece(ts: seq<string>, c: char)
    requires AreProper(ts) && c != NUL
    ensures AreProper(ts + [[c]]) && Concat(ts + [[c]]) == Concat(ts) + [c]
  {
    assert (ts + [[c]])[..|ts|] == ts;
  }

  lemma LongerPiece(ts: seq<string>, c: char)
    requires AreProper(ts) && c != NUL && ts != []
    ensures var n := |ts| - 1;
            var us := ts[..n] + [ts[n] + [c]];
            AreProper(us) && Concat(us) == Concat(ts) + [c]
  {
    var n := |ts| - 1;
    var us := ts[..n] + [ts[n] + [c]];
    assert us[..n] == ts[..n];
    assert Concat(us) == Concat(ts[..n]) + (ts[n] + [c]);
  }

  /** The pieces are non-empty, free of NUL, and together the text without its NULs. */
  lemma {:induction false} TokensFaithful(s: string)
    ensures AreProper(Tokens(s)) && Concat(Tokens(s)) == WithoutNul(s)
  {
    if s != "" {
      var init, c := s[..|s| - 1], s[|s| - 1];
      TokensFaithful(init);
      if c != NUL {
        NextPiece(Tokens(init), c);
        if Tokens(init) != [] {
          LongerPiece(Tokens(init), c);
        }
      }
    }
  }

  /** Fields with a NUL between each two. */
  function Join(fields: seq<string>): string {
    if fields == [] then ""
    else if |fields| == 1 then fields[0]
    else Join(fields[..|fields| - 1]) + ([NUL] + fields[|fields| - 1])
  }

  predicate NulFree(fields: seq<string>) {
    forall i :: 0 <= i < |fields| ==> NUL !in fields[i]
  }

  function NonEmpty(fields: seq<string>): seq<string> {
    if fields == [] then []
    else
      var before, last := NonEmpty(fields[..|fields| - 1]), fields[|fields| - 1];
      if last == "" then before else before + [last]
  }

  /** The fields after one more character. */
  function NextFields(before: seq<string>, c: char): (fields: seq<string>)
    requires before != []
    ensures fields != []
  {
    var k := |before| - 1;
    if c == NUL then before + [""] else before[..k] + [before[k] + [c]]
  }

  /** What stands between the NULs of s. */
  function Fields(s: string): (fields: seq<string>)
    ensures fields != []
  {
    if s == "" then [""] else NextFields(Fields(s[..|s| - 1]), s[|s| - 1])
  }

  lemma JoinNext(fields: seq<string>, f: string)
    requires fields != []
    ensures Join(fields + [f]) == Join(fields) + ([NUL] + f)
  {
    assert (fields + [f])[..|fields|] == fields;
  }

  lemma JoinLonger(init: seq<string>, f: string, c: char)
    ensures Join(init + [f + [c]]) == Join(init + [f]) + [c]
  {
    if init == [] {
      assert init + [f] == [f] && init + [f + [c]] == [f + [c]];
    } else {
      JoinNext(init, f);
      JoinNext(init, f + [c]);
    }
  }

  /** Every text is its fields, none of which holds a NUL, with NULs between them. */
  lemma {:induction false} FieldsJoin(s: string)
    ensures Join(Fields(s)) == s && NulFree(Fields(s))
  {
    if s != "" {
      var init, c := s[..|s| - 1], s[|s| - 1];
      FieldsJoin(init);
      FieldsNext(Fields(init), c);
      assert s == init + [c];
    }
  }

  lemma FieldsNext(before: seq<string>, c: char)
    requires before != [] && NulFree(before)
    ensures Join(NextFields(before, c)) == Join(before) + [c] && NulFree(NextFields(before, c))
  {
    var k := |before| - 1;
    if c == NUL {
      JoinNext(before, "");
    } else {
      assert before == before[..k] + [before[k]];
      JoinLonger(before[..k], before[k], c);
    }
  }

  lemma TokensSnoc(s: string, c: char)
    requires c != NUL
    ensures var ts := Tokens(s);
            Tokens(s + [c]) ==
            if s != "" && s[|s| - 1] != NUL && ts != [] then ts[..|ts| - 1] + [ts[|ts| - 1] + [c]] else ts + [[c]]
  {
    var u := s + [c];
    assert u[..|u| - 1] == s && u[|u| - 1] == c;
    assert s != "" ==> u[|u| - 2] == s[|s| - 1];
  }

  lemma {:induction false} TokensOfField(f: string)
    requires NUL !in f
    ensures Tokens(f) == if f == "" then [] else [f]
  {
    if f != "" {
      var g, c := f[..|f| - 1], f[|f| - 1];
      assert f == g + [c];
      TokensOfField(g);
      TokensSnoc(g, c);
    }
  }

  lemma TokensBeforeNul(s: string)
    ensures Tokens(s + [NUL]) == Tokens(s)
  {
    var u := s + [NUL];
    assert u[..|u| - 1] == s && u[|u| - 1] == NUL;
  }

  lemma {:induction false} TokensOfNextField(s: string, f: string)
    requires NUL !in f
    ensures Tokens(s + ([NUL] + f)) == Tokens(s) + (if f == "" then [] else [f])
  {
    if f == "" {
      TokensBeforeNul(s);
      assert [NUL] + f == [NUL];
    } else {
      var g, c := f[..|f| - 1], f[|f| - 1];
      TokensOfNextField(s, g);
      SplitLast(s, f);
      FieldGrows(s + ([NUL] + g), Tokens(s), g, c);
    }
  }

  lemma SplitLast(s: string, f: string)
    requires f != ""
    ensures var g := f[..|f| - 1];
            var t := s + ([NUL] + g);
            && f == g + [f[|f| - 1]] && s + ([NUL] + f) == t + [f[|f| - 1]]
            && t != "" && t[|t| - 1] == if g == "" then NUL else g[|g| - 1]
  {
  }

  /** One more character of a field that has begun behind a NUL. */
  lemma FieldGrows(t: string, ts: seq<string>, g: string, c: char)
    requires c != NUL && NUL !in g && t != ""
    requires t[|t| - 1] == if g == "" then NUL else g[|g| - 1]
    requires Tokens(t) == ts + (if g == "" then [] else [g])
    ensures Tokens(t + [c]) == ts + [g + [c]]
  {
    TokensSnoc(t, c);
    if g == "" {
      assert Tokens(t) == ts;
      assert g + [c] == [c];
    } else {
      assert g[|g| - 1] in g;
      assert Tokens(t)[..|ts|] == ts && Tokens(t)[|ts|] == g;
    }
  }

  lemma {:induction false} TokensOfJoin(fields: seq<string>)
    requires fields != [] && NulFree(fields)
    ensures Tokens(Join(fields)) == NonEmpty(fields)
  {
    var k := |fields| - 1;
    if k == 0 {
      TokensOfField(fields[0]);
      assert NonEmpty(fields[..0]) == [];
    } else {
      TokensOfJoin(fields[..k]);
      TokensOfNextField(Join(fields[..k]), fields[k]);
    }
  }

  /** The pieces are what stands between the NULs of s, where that is not empty: the longest stretches
      without NUL, all of them, in order. However s is made of NUL-free fields, they are these. */
  lemma TokensAreFields(s: string)
    ensures Join(Fields(s)) == s && NulFree(Fields(s)) && Tokens(s) == NonEmpty(Fields(s))
    ensures forall fields :: fields != [] && NulFree(fields) && Join(fields) == s ==> Tokens(s) == NonEmpty(fields)
  {
    FieldsJoin(s);
    TokensOfJoin(Fields(s));
    forall fields | fields != [] && NulFree(fields) && Join(fields) == s
      ensures Tokens(s) == NonEmpty(fields)
    {
      TokensOfJoin(fields);
    }
  }

  // ---------- The argument buffer ----------

  /** Whether the scan passes over a record without asking for its arguments. */
  predicate Skipped(k: KInfo) {
    k.pid > 0 && k.zombie
  }

  /** The contents of `data` after reading the arguments of a process; the buffer is reused from
      process to process within a call. */
  function After(data: string, r: ArgsReply): string
    requires FitsArgs(r)
  {
    match r
    case NoArgsSize => data
    case ArgsSized(len, ArgsFailed(left)) => left
    case ArgsSized(len, Fetched(bytes)) => bytes + Resize(data, len)[|bytes|..]
  }

  /** The block a kernel reply describes on its own. */
  function Clean(r: ArgsReply): string
    requires r.ArgsSized? && r.fetch.Fetched? && FitsArgs(r)
  {
    Resize(r.fetch.bytes, r.len)
  }

  /** The block seen is that of the process itself exactly when the kernel delivered all the bytes it
      announced, or what the buffer still holds behind them is NUL. */
  lemma BlockIsCleanIff(data: string, r: ArgsReply)
    requires r.ArgsSized? && r.fetch.Fetched? && FitsArgs(r)
    ensures After(data, r) == Clean(r) <==>
            forall i :: |r.fetch.bytes| <= i < |data| && i < r.len ==> data[i] == NUL
  {
    var n := |r.fetch.bytes|;
    var a, c := After(data, r), Clean(r);
    assert |a| == |c| == r.len;
    assert forall i :: n <= i < r.len ==> a[i] == (if i < |data| then data[i] else NUL);
    assert forall i :: n <= i < r.len ==> c[i] == NUL;
    assert forall i :: 0 <= i < n ==> a[i] == c[i];
    if After(data, r) == Clean(r) {
      forall i | n <= i < |data| && i < r.len
        ensures data[i] == NUL
      {
        assert a[i] == c[i];
      }
    }
  }

  /** The buffer after a call that started at `from` has examined the processes before i. */
  function Buffer(procs: seq<KInfo>, replies: seq<ArgsReply>, from: nat, i: nat): string
    requires from <= i <= |procs| == |replies| && forall k :: 0 <= k < |replies| ==> FitsArgs(replies[k])
  {
    if i == from then ""
    else
      var data := Buffer(procs, replies, from, i - 1);
      if Skipped(procs[i - 1]) then data else After(data, replies[i - 1])
  }

  /** Whether a call that started at `from` stops at process i. */
  predicate Eligible(procs: seq<KInfo>, replies: seq<ArgsReply>, from: nat, i: nat)
    requires from <= i < |procs| == |replies| && forall k :: 0 <= k < |replies| ==> FitsArgs(replies[k])
  {
    && !Skipped(procs[i])
    && replies[i].ArgsSized? && replies[i].fetch.Fetched?
    && NUL in Buffer(procs, replies, from, i + 1)
  }

  function EntryFor(k: KInfo, data: string): Entry
    requires NUL in data
  {
    Entry(k.pid, k.ppid, k.pgid, ExeFile(data), Tokens(data))
  }

  /** An entry shows the identifiers of a process that is not just awaiting collection and whose arguments
      could be fetched. */
  predicate Shown(k: KInfo, r: ArgsReply, e: Entry) {
    && (k.pid <= 0 || !k.zombie) && r.ArgsSized? && r.fetch.Fetched?
    && e.pid == k.pid && e.ppid == k.ppid && e.gid == k.pgid
  }

  /** An entry is made of a block: its name from the text before the first NUL, its arguments from all. */
  predicate Describes(e: Entry, data: string) {
    NUL in data && IsBaseName(data[..FindNul(data)], e.exeFile) && e.args == Tokens(data)
  }

  lemma EntryDescribes(k: KInfo, data: string)
    requires NUL in data
    ensures Describes(EntryFor(k, data), data)
  {
    ExeFileIsBaseName(data);
  }

  lemma EligibleShows(procs: seq<KInfo>, replies: seq<ArgsReply>, from: nat, i: nat)
    requires from <= i < |procs| == |replies| && forall k :: 0 <= k < |replies| ==> FitsArgs(replies[k])
    requires Eligible(procs, replies, from, i)
    ensures var data := Buffer(procs, replies, from, i + 1);
            Shown(procs[i], replies[i], EntryFor(procs[i], data)) && Describes(EntryFor(procs[i], data), data)
  {
    EntryDescribes(procs[i], Buffer(procs, replies, from, i + 1));
  }

  /** What the buffer holds after a reply: what it held if the size is not known; whatever a failed fetch
      leaves; otherwise the bytes delivered, and behind them what it held, or NULs, up to the size. */
  predicate IsBufferAfter(data: string, r: ArgsReply, block: string) {
    match r
    case NoArgsSize => block == data
    case ArgsSized(_, ArgsFailed(left)) => block == left
    case ArgsSized(len, Fetched(bytes)) =>
      && |block| == len && bytes <= block
      && forall i :: |bytes| <= i < len ==> block[i] == if i < |data| then data[i] else '\0'
  }

  /** A zombie with a positive identifier leaves no trace: no entry, and the buffer as it was. Any other
      process whose arguments were fetched makes an entry if the buffer then holds a NUL. */
  lemma ZombiesArePassedOver(procs: seq<KInfo>, replies: seq<ArgsReply>, from: nat, i: nat)
    requires from <= i < |procs| == |replies| && forall k :: 0 <= k < |replies| ==> FitsArgs(replies[k])
    ensures Buffer(procs, replies, from, from) == ""
    ensures procs[i].pid > 0 && procs[i].zombie ==>
              !Eligible(procs, replies, from, i) &&
              Buffer(procs, replies, from, i + 1) == Buffer(procs, replies, from, i)
    ensures procs[i].pid <= 0 || !procs[i].zombie ==>
              Buffer(procs, replies, from, i + 1) == After(Buffer(procs, replies, from, i), replies[i]) &&
              (Eligible(procs, replies, from, i) <==>
               replies[i].ArgsSized? && replies[i].fetch.Fetched? && NUL in Buffer(procs, replies, from, i + 1))
  {
  }

  /** A block shorter than announced is filled up with NULs. */
  lemma CleanIsPadded(r: ArgsReply)
    requires r.ArgsSized? && r.fetch.Fetched? && FitsArgs(r)
    ensures var n := |r.fetch.bytes|;
            |Clean(r)| == r.len && Clean(r)[..n] == r.fetch.bytes && forall i :: n <= i < r.len ==> Clean(r)[i] == '\0'
  {
  }

  // ---------- The process list ----------

  const BLANK: KInfo := KInfo(0, 0, 0, false)

  function ResizeList(ks: seq<KInfo>, n: nat): (r: seq<KInfo>)
    ensures |r| == n
  {
    if n <= |ks| then ks[..n] else ks + seq(n - |ks|, _ => BLANK)
  }

  /** The attempt that decides: the first that need not be repeated, or the tenth. */
  function Decisive(replies: seq<ListReply>, from: nat): (d: nat)
    requires from < MAX_TRIES <= |replies|
    ensures from <= d < MAX_TRIES
    ensures forall i :: from <= i < d ==> NeedsRetry(replies[i])
    ensures d == MAX_TRIES - 1 || !NeedsRetry(replies[d])
    decreases MAX_TRIES - from
  {
    if NeedsRetry(replies[from]) && from + 1 < MAX_TRIES then Decisive(replies, from + 1) else from
  }

  function ListOf(r: ListReply): seq<KInfo> {
    if r.Sized? && r.fetch.Delivered? then r.fetch.records else []
  }

  class Iterator {
    var procs: seq<KInfo>
    var index: nat
    var entry: Entry

    /** The constructor. */
    constructor (replies: seq<ListReply>)
      requires MAX_TRIES <= |replies| && forall i :: 0 <= i < |replies| ==> FitsList(replies[i])
      ensures index == 0 && procs == ListOf(replies[Decisive(replies, 0)])
    {
      index := 0;
      entry := Entry(0, 0, 0, "", []);
      procs := [];
      new;
      var tries := FetchList(replies);
    }

    /** The attempts to read the list: the one that decides is the last, and the iterator holds
        exactly the records it delivered, or none. */
    method FetchList(replies: seq<ListReply>) returns (tries: nat)
      requires MAX_TRIES <= |replies| && forall i :: 0 <= i < |replies| ==> FitsList(replies[i])
      modifies this`procs
      ensures tries == Decisive(replies, 0) + 1 <= MAX_TRIES
      ensures procs == ListOf(replies[tries - 1])
      ensures 1 <= tries <= 10 && forall i :: 0 <= i < tries - 1 ==> replies[i].Sized? && replies[i].fetch.NoMemory?
      ensures replies[tries - 1].Sized? && replies[tries - 1].fetch.NoMemory? ==> tries == 10
      ensures var last := replies[tries - 1];
              procs == if last.Sized? && last.fetch.Delivered? then last.fetch.records else []
    {
      var done := false;
      var tryNum := 1;
      tries := 0;
      var again := true;
      while again
        invariant 1 <= tryNum <= MAX_TRIES && (again ==> tries == tryNum - 1 && !done)
        invariant again ==> Decisive(replies, 0) == Decisive(replies, tries)
        invariant !again ==> tries == Decisive(replies, 0) + 1
        invariant !again ==> done == !NeedsRetry(replies[tries - 1])
        invariant done ==> procs == ListOf(replies[tries - 1])
        decreases again, MAX_TRIES - tryNum
      {
        var reply := replies[tries];
        tries := tries + 1;
        if reply.SizeFails? {
          procs := ResizeList(procs, 0);
          done := true;
        } else {
          procs := ResizeList(procs, reply.announced + SPARE);
          match reply.fetch
          case NoMemory =>
          case Failed =>
            procs := ResizeList(procs, 0);
            done := true;
          case Delivered(records) =>
            procs := records + procs[|records|..];
            procs := ResizeList(procs, |records|);
            done := true;
        }
        again := !done && tryNum < MAX_TRIES;
        if again {
          tryNum := tryNum + 1;
        }
      }
      if !done {
        procs := ResizeList(procs, 0);
      }
    }

    /** CheckForNextProcess: moves past the first eligible process from the cursor on and makes its
        entry, or runs to the end if there is none. */
    method CheckForNextProcess(replies: seq<ArgsReply>) returns (found: bool)
      requires index <= |procs| == |replies| && forall k :: 0 <= k < |replies| ==> FitsArgs(replies[k])
      modifies this`index, this`entry
      ensures old(index) <= index <= |procs|
      ensures found ==>
                && old(index) < index && Eligible(procs, replies, old(index), index - 1)
                && entry == EntryFor(procs[index - 1], Buffer(procs, replies, old(index), index))
      ensures forall i :: old(index) <= i < (if found then index - 1 else |procs|) ==>
                !Eligible(procs, replies, old(index), i)
      ensures !found ==> index == |procs|
    {
      ghost var from := index;
      var data := "";
      while index < |procs|
        invariant from <= index <= |procs|
        invariant data == Buffer(procs, replies, from, index)
        invariant forall i :: from <= i < index ==> !Eligible(procs, replies, from, i)
        decreases |procs| - index
      {
        var made;
        made, data := Examine(data, replies[index]);
        index := index + 1;
        if made {
          return true;
        }
      }
      return false;
    }

    /** The body of the loop, for the process at the cursor: whether it makes an entry, and what the
        buffer then holds. The arguments are stored even when the name turns out to be missing. */
    method Examine(data: string, reply: ArgsReply) returns (made: bool, block: string)
      requires index < |procs| && FitsArgs(reply)
      modifies this`entry
      ensures block == if Skipped(procs[index]) then data else After(data, reply)
      ensures made <==> !Skipped(procs[index]) && reply.ArgsSized? && reply.fetch.Fetched? && NUL in block
      ensures made ==> entry == EntryFor(procs[index], block)
      ensures procs[index].pid > 0 && procs[index].zombie ==> !made && block == data
    {
      var kinfo := procs[index];
      if kinfo.pid > 0 && kinfo.zombie {
        return false, data;
      }
      var ok;
      ok, block := ReadArgs(data, reply);
      if !ok {
        return false, block;
      }
      entry := entry.(args := Tokens(block));
      if NUL !in block {
        return false, block;
      }
      Identify(kinfo, block);
      return true, block;
    }

    /** The two queries for a process's arguments, into the buffer at hand. */
    method ReadArgs(data: string, reply: ArgsReply) returns (ok: bool, block: string)
      requires FitsArgs(reply)
      ensures block == After(data, reply) && ok == (reply.ArgsSized? && reply.fetch.Fetched?)
      ensures IsBufferAfter(data, reply, block)
    {
      block := data;
      if reply.NoArgsSize? {
        return false, block;
      }
      block := Resize(block, reply.len);
      match reply.fetch
      case ArgsFailed(left) =>
        return false, left;
      case Fetched(bytes) =>
        block := bytes + block[|bytes|..];
        return true, block;
    }

    /** The identifiers of a process and the name of its executable. */
    method Identify(kinfo: KInfo, data: string)
      requires NUL in data && entry.args == Tokens(data)
      modifies this`entry
      ensures entry == EntryFor(kinfo, data) && Describes(entry, data)
    {
      var end := FindNul(data);
      EntryDescribes(kinfo, data);
      entry := entry.(pid := kinfo.pid, ppid := kinfo.ppid, gid := kinfo.pgid);
      LastSlashIsLast(data, end);
      match LastSlash(data, end)
      case None =>
        entry := entry.(exeFile := data[..end]);
      case Some(k) =>
        entry := entry.(exeFile := data[k + 1..end]);
    }
  }

  // ---------- All calls together ----------

  /** The entries still to come when the call that started at `from` has reached process n. The buffer
      starts empty again with the call after each entry. */
  function Listing(procs: seq<KInfo>, replies: seq<ArgsReply>, from: nat, n: nat): seq<Entry>
    requires from <= n <= |procs| == |replies| && forall k :: 0 <= k < |replies| ==> FitsArgs(replies[k])
    decreases |procs| - n
  {
    if n == |procs| then []
    else if Eligible(procs, replies, from, n) then
      [EntryFor(procs[n], Buffer(procs, replies, from, n + 1))] + Listing(procs, replies, n + 1, n + 1)
    else Listing(procs, replies, from, n + 1)
  }

  lemma {:induction false} ListingSkips(procs: seq<KInfo>, replies: seq<ArgsReply>, from: nat, n: nat, m: nat)
    requires from <= n <= m <= |procs| == |replies| && forall k :: 0 <= k < |replies| ==> FitsArgs(replies[k])
    requires forall i :: n <= i < m ==> !Eligible(procs, replies, from, i)
    ensures Listing(procs, replies, from, n) == Listing(procs, replies, from, m)
    decreases m - n
  {
    if n < m {
      ListingSkips(procs, replies, from, n + 1, m);
    }
  }

  /** Calling CheckForNextProcess until it returns false yields the eligible processes, each once and
      in order; a further call returns false again. */
  method CollectAll(it: Iterator, replies: seq<ArgsReply>) returns (entries: seq<Entry>, ghost at: seq<nat>)
    requires it.index == 0 && |it.procs| == |replies|
    requires forall k :: 0 <= k < |replies| ==> FitsArgs(replies[k])
    modifies it`index, it`entry
    ensures entries == Listing(it.procs, replies, 0, 0)
    ensures entries == OwnListing(it.procs, replies, 0) <==> NoLeftovers(it.procs, replies, 0)
    ensures it.index == |it.procs|
    ensures ListedAt(it.procs, replies, entries, at)
    ensures NoLeftovers(it.procs, replies, 0) ==> OwnDescribed(replies, entries, at)
    ensures NoLeftovers(it.procs, replies, 0) ==>
              forall i :: 0 <= i < |it.procs| ==>
                (i in at <==> (it.procs[i].pid <= 0 || !it.procs[i].zombie) && HasNul(replies[i]))
  {
    entries := [];
    var more := true;
    while more
      invariant it.index <= |it.procs|
      invariant Listing(it.procs, replies, 0, 0) == entries + Listing(it.procs, replies, it.index, it.index)
      invariant !more ==> it.index == |it.procs|
      decreases more, |it.procs| - it.index
    {
      ghost var from := it.index;
      more := it.CheckForNextProcess(replies);
      ListingSkips(it.procs, replies, from, from, if more then it.index - 1 else it.index);
      if more {
        entries := entries + [it.entry];
      }
    }
    more := it.CheckForNextProcess(replies);
    assert !more;
    ListingIsOwnIff(it.procs, replies);
    if NoLeftovers(it.procs, replies, 0) {
      at := OwnListingPlaces(it.procs, replies, 0);
    } else {
      at := ListingPlaces(it.procs, replies, 0, 0);
    }
  }

  /** The entries show, in order, the processes at certain places of the list, each once. */
  ghost predicate ListedAt(procs: seq<KInfo>, replies: seq<ArgsReply>, entries: seq<Entry>, at: seq<nat>)
    requires |procs| == |replies|
  {
    && |at| == |entries| && (forall k, l :: 0 <= k < l < |at| ==> at[k] < at[l])
    && forall k :: 0 <= k < |at| ==> at[k] < |procs| && Shown(procs[at[k]], replies[at[k]], entries[k])
  }

  /** Each entry is made of the block of its own process. */
  predicate OwnDescribed(replies: seq<ArgsReply>, entries: seq<Entry>, at: seq<nat>) {
    |entries| <= |at| && forall k :: 0 <= k < |entries| ==>
      at[k] < |replies| && FitsArgs(replies[at[k]]) && Delivered(replies[at[k]]) &&
      Describes(entries[k], Clean(replies[at[k]]))
  }

  /** Whether the kernel delivers a block that holds a NUL, or is filled up with one. */
  predicate HasNul(r: ArgsReply) {
    r.ArgsSized? && r.fetch.Fetched? && (NUL in r.fetch.bytes || |r.fetch.bytes| < r.len)
  }

  lemma {:induction false} ListingPlaces(procs: seq<KInfo>, replies: seq<ArgsReply>, from: nat, n: nat)
    returns (at: seq<nat>)
    requires from <= n <= |procs| == |replies| && forall k :: 0 <= k < |replies| ==> FitsArgs(replies[k])
    ensures ListedAt(procs, replies, Listing(procs, replies, from, n), at)
    ensures forall k :: 0 <= k < |at| ==> n <= at[k]
    decreases |procs| - n
  {
    if n == |procs| {
      at := [];
    } else if Eligible(procs, replies, from, n) {
      var rest := ListingPlaces(procs, replies, n + 1, n + 1);
      at := [n] + rest;
      ListedFirst(procs, replies, n, EntryFor(procs[n], Buffer(procs, replies, from, n + 1)),
                  Listing(procs, replies, n + 1, n + 1), rest);
    } else {
      at := ListingPlaces(procs, replies, from, n + 1);
    }
  }

  lemma {:induction false} OwnListingPlaces(procs: seq<KInfo>, replies: seq<ArgsReply>, n: nat)
    returns (at: seq<nat>)
    requires n <= |procs| == |replies| && forall k :: 0 <= k < |replies| ==> FitsArgs(replies[k])
    ensures ListedAt(procs, replies, OwnListing(procs, replies, n), at) && AreOwnPlaces(procs, replies, n, at)
    ensures OwnDescribed(replies, OwnListing(procs, replies, n), at)
    decreases |procs| - n
  {
    if n == |procs| {
      at := [];
    } else {
      var rest := OwnListingPlaces(procs, replies, n + 1);
      ListableIff(procs[n], replies[n]);
      OwnPlacesFrom(procs, replies, n, rest);
      if Listable(procs[n], replies[n]) {
        EntryDescribes(procs[n], Clean(replies[n]));
        at := [n] + rest;
        ListedFirst(procs, replies, n, EntryFor(procs[n], Clean(replies[n])), OwnListing(procs, replies, n + 1), rest);
      } else {
        at := rest;
      }
    }
  }

  /** The places from n on whose process is no zombie and has a block with a NUL. */
  ghost predicate AreOwnPlaces(procs: seq<KInfo>, replies: seq<ArgsReply>, n: nat, at: seq<nat>)
    requires |procs| == |replies|
  {
    forall i: nat :: i in at <==>
      n <= i < |procs| && (procs[i].pid <= 0 || !procs[i].zombie) && HasNul(replies[i])
  }

  lemma OwnPlacesFrom(procs: seq<KInfo>, replies: seq<ArgsReply>, n: nat, rest: seq<nat>)
    requires n < |procs| == |replies| && AreOwnPlaces(procs, replies, n + 1, rest)
    ensures forall k :: 0 <= k < |rest| ==> n < rest[k]
    ensures var own := (procs[n].pid <= 0 || !procs[n].zombie) && HasNul(replies[n]);
            AreOwnPlaces(procs, replies, n, if own then [n] + rest else rest)
  {
    forall k | 0 <= k < |rest|
      ensures n < rest[k]
    {
      assert rest[k] in rest;
    }
  }

  lemma ListedFirst(procs: seq<KInfo>, replies: seq<ArgsReply>, n: nat, e: Entry, entries: seq<Entry>, at: seq<nat>)
    requires n < |procs| == |replies| && Shown(procs[n], replies[n], e)
    requires ListedAt(procs, replies, entries, at) && forall k :: 0 <= k < |at| ==> n < at[k]
    ensures ListedAt(procs, replies, [e] + entries, [n] + at)
    ensures forall k :: 0 <= k < |at| + 1 ==> n <= ([n] + at)[k]
  {
  }

  lemma ListableIff(k: KInfo, r: ArgsReply)
    requires FitsArgs(r)
    ensures Listable(k, r) <==> (k.pid <= 0 || !k.zombie) && HasNul(r)
  {
    if Delivered(r) {
      CleanIsPadded(r);
      var n := |r.fetch.bytes|;
      if n < r.len {
        assert Clean(r)[n] == NUL;
      } else {
        assert Clean(r) == r.fetch.bytes;
      }
    }
  }

  // ---------- Whose bytes an entry is made of ----------

  predicate Delivered(r: ArgsReply) {
    r.ArgsSized? && r.fetch.Fetched?
  }

  /** Whether a process makes an entry by the kernel's reply for it alone. */
  predicate Listable(k: KInfo, r: ArgsReply)
    requires FitsArgs(r)
  {
    !Skipped(k) && Delivered(r) && NUL in Clean(r)
  }

  /** The listing that is meant: the processes from n on that are no zombies and have a block with a
      NUL, each described by its own block. */
  function OwnListing(procs: seq<KInfo>, replies: seq<ArgsReply>, n: nat): seq<Entry>
    requires n <= |procs| == |replies| && forall k :: 0 <= k < |replies| ==> FitsArgs(replies[k])
    decreases |procs| - n
  {
    if n == |procs| then []
    else
      var rest := OwnListing(procs, replies, n + 1);
      if Listable(procs[n], replies[n]) then [EntryFor(procs[n], Clean(replies[n]))] + rest else rest
  }

  function BytesOf(r: ArgsReply): string
    requires r.ArgsSized?
  {
    match r.fetch
    case ArgsFailed(left) => left
    case Fetched(bytes) => bytes
  }

  /** The bytes that the kernel wrote last, before it is asked about process i: those of the nearest
      process asked about with a size since the last one listed, if there is one. */
  function Residue(procs: seq<KInfo>, replies: seq<ArgsReply>, i: nat): string
    requires i <= |procs| == |replies| && forall k :: 0 <= k < |replies| ==> FitsArgs(replies[k])
  {
    if i == 0 || Listable(procs[i - 1], replies[i - 1]) then ""
    else if Skipped(procs[i - 1]) || replies[i - 1].NoArgsSize? then Residue(procs, replies, i - 1)
    else BytesOf(replies[i - 1])
  }

  /** A block covers the residue if it is at least as long, or as long as announced, or the bytes of the
      residue that show behind it are all NUL. */
  predicate Covers(r: ArgsReply, residue: string)
    requires Delivered(r)
  {
    forall k :: |r.fetch.bytes| <= k < |residue| && k < r.len ==> residue[k] == NUL
  }

  predicate CoversAt(procs: seq<KInfo>, replies: seq<ArgsReply>, i: nat)
    requires i < |procs| == |replies| && forall k :: 0 <= k < |replies| ==> FitsArgs(replies[k])
  {
    !Skipped(procs[i]) && Delivered(replies[i]) ==> Covers(replies[i], Residue(procs, replies, i))
  }

  /** Every block from process n on covers what the kernel wrote before it. */
  predicate NoLeftovers(procs: seq<KInfo>, replies: seq<ArgsReply>, n: nat)
    requires n <= |procs| == |replies| && forall k :: 0 <= k < |replies| ==> FitsArgs(replies[k])
  {
    forall i :: n <= i < |procs| ==> CoversAt(procs, replies, i)
  }

  /** The buffer shows a text followed by NULs. */
  predicate Shows(data: string, text: string) {
    text <= data && forall k :: |text| <= k < |data| ==> data[k] == NUL
  }

  lemma CleanIffCovers(data: string, residue: string, r: ArgsReply)
    requires Delivered(r) && FitsArgs(r) && Shows(data, residue)
    ensures After(data, r) == Clean(r) <==> Covers(r, residue)
    ensures Shows(Clean(r), r.fetch.bytes)
  {
    BlockIsCleanIff(data, r);
  }

  /** Whether an entry is made depends on the own block only where that one is shown; a block that is
      not shown as it is has a NUL of its own. */
  lemma EligibleIff(data: string, r: ArgsReply)
    requires Delivered(r) && FitsArgs(r)
    ensures NUL in After(data, r) ==> NUL in Clean(r)
    ensures After(data, r) != Clean(r) ==> NUL in Clean(r)
  {
    var n, a, c := |r.fetch.bytes|, After(data, r), Clean(r);
    assert a[..n] == c[..n];
    if n < r.len {
      assert c[n] == NUL;
    } else {
      assert a == c;
    }
  }

  lemma {:induction false} WithoutNulConcat(s: string, t: string)
    ensures WithoutNul(s + t) == WithoutNul(s) + WithoutNul(t)
  {
    if t == "" {
      assert s + t == s;
    } else {
      WithoutNulConcat(s, t[..|t| - 1]);
      assert (s + t)[..|s + t| - 1] == s + t[..|t| - 1];
    }
  }

  lemma {:induction false} WithoutNulEmptyIff(s: string)
    ensures WithoutNul(s) == "" <==> forall k :: 0 <= k < |s| ==> s[k] == NUL
  {
    if s != "" {
      WithoutNulEmptyIff(s[..|s| - 1]);
    }
  }

  /** Foreign bytes behind a block show in the arguments of the entry. */
  lemma ForeignBytesShow(data: string, r: ArgsReply, k: KInfo)
    requires Delivered(r) && FitsArgs(r) && After(data, r) != Clean(r) && NUL in After(data, r)
    ensures NUL in Clean(r) && EntryFor(k, After(data, r)) != EntryFor(k, Clean(r))
  {
    EligibleIff(data, r);
    var bytes, a, c := r.fetch.bytes, After(data, r), Clean(r);
    var junk, nuls := a[|bytes|..], c[|bytes|..];
    assert a == bytes + junk && c == bytes + nuls;
    assert junk != nuls && |junk| == |nuls|;
    assert forall i :: 0 <= i < |nuls| ==> nuls[i] == NUL;
    WithoutNulConcat(bytes, junk);
    WithoutNulConcat(bytes, nuls);
    WithoutNulEmptyIff(junk);
    WithoutNulEmptyIff(nuls);
    TokensFaithful(a);
    TokensFaithful(c);
  }

  /** Foreign bytes may hide a process but never add one. */
  lemma {:induction false} ListingIsNoLonger(procs: seq<KInfo>, replies: seq<ArgsReply>, from: nat, n: nat)
    requires from <= n <= |procs| == |replies| && forall k :: 0 <= k < |replies| ==> FitsArgs(replies[k])
    ensures |Listing(procs, replies, from, n)| <= |OwnListing(procs, replies, n)|
    decreases |procs| - n
  {
    if n < |procs| {
      EligibleIsListable(procs, replies, from, n);
      ListingIsNoLonger(procs, replies, if Eligible(procs, replies, from, n) then n + 1 else from, n + 1);
    }
  }

  lemma EligibleIsListable(procs: seq<KInfo>, replies: seq<ArgsReply>, from: nat, n: nat)
    requires from <= n < |procs| == |replies| && forall k :: 0 <= k < |replies| ==> FitsArgs(replies[k])
    ensures Eligible(procs, replies, from, n) ==> Listable(procs[n], replies[n])
  {
    if Eligible(procs, replies, from, n) {
      EligibleIff(Buffer(procs, replies, from, n), replies[n]);
    }
  }

  lemma NoLeftoversUnroll(procs: seq<KInfo>, replies: seq<ArgsReply>, n: nat)
    requires n < |procs| == |replies| && forall k :: 0 <= k < |replies| ==> FitsArgs(replies[k])
    ensures NoLeftovers(procs, replies, n) <==> CoversAt(procs, replies, n) && NoLeftovers(procs, replies, n + 1)
  {
  }

  /** As long as the buffer shows what the kernel wrote last, the entries still to come are the own ones
      exactly when every block to come covers it. */
  lemma {:induction false} ListingIsOwnFromIff(procs: seq<KInfo>, replies: seq<ArgsReply>, from: nat, n: nat)
    requires from <= n <= |procs| == |replies| && forall k :: 0 <= k < |replies| ==> FitsArgs(replies[k])
    requires Shows(Buffer(procs, replies, from, n), Residue(procs, replies, n))
    ensures Listing(procs, replies, from, n) == OwnListing(procs, replies, n) <==> NoLeftovers(procs, replies, n)
    decreases |procs| - n
  {
    if n < |procs| {
      NoLeftoversUnroll(procs, replies, n);
      if CoversAt(procs, replies, n) {
        CoveredStep(procs, replies, from, n);
        var next := if Listable(procs[n], replies[n]) then n + 1 else from;
        ListingIsOwnFromIff(procs, replies, next, n + 1);
        if Listable(procs[n], replies[n]) {
          SameHead(EntryFor(procs[n], Clean(replies[n])), Listing(procs, replies, next, n + 1),
                   OwnListing(procs, replies, n + 1));
        }
      } else {
        UncoveredStep(procs, replies, from, n);
      }
    }
  }

  lemma SameHead(e: Entry, s: seq<Entry>, t: seq<Entry>)
    ensures [e] + s == [e] + t <==> s == t
  {
    assert ([e] + s)[1..] == s && ([e] + t)[1..] == t;
  }

  lemma CoveredStep(procs: seq<KInfo>, replies: seq<ArgsReply>, from: nat, n: nat)
    requires from <= n < |procs| == |replies| && forall k :: 0 <= k < |replies| ==> FitsArgs(replies[k])
    requires Shows(Buffer(procs, replies, from, n), Residue(procs, replies, n)) && CoversAt(procs, replies, n)
    ensures Eligible(procs, replies, from, n) <==> Listable(procs[n], replies[n])
    ensures Listable(procs[n], replies[n]) ==> Buffer(procs, replies, from, n + 1) == Clean(replies[n])
    ensures var next := if Listable(procs[n], replies[n]) then n + 1 else from;
            Shows(Buffer(procs, replies, next, n + 1), Residue(procs, replies, n + 1))
  {
    if !Skipped(procs[n]) && Delivered(replies[n]) {
      CleanIffCovers(Buffer(procs, replies, from, n), Residue(procs, replies, n), replies[n]);
    }
  }

  lemma UncoveredStep(procs: seq<KInfo>, replies: seq<ArgsReply>, from: nat, n: nat)
    requires from <= n < |procs| == |replies| && forall k :: 0 <= k < |replies| ==> FitsArgs(replies[k])
    requires Shows(Buffer(procs, replies, from, n), Residue(procs, replies, n)) && !CoversAt(procs, replies, n)
    ensures Listing(procs, replies, from, n) != OwnListing(procs, replies, n)
  {
    var data, r := Buffer(procs, replies, from, n), replies[n];
    CleanIffCovers(data, Residue(procs, replies, n), r);
    EligibleIff(data, r);
    if Eligible(procs, replies, from, n) {
      ForeignBytesShow(data, r, procs[n]);
      assert Listing(procs, replies, from, n)[0] != OwnListing(procs, replies, n)[0];
    } else {
      ListingIsNoLonger(procs, replies, from, n + 1);
    }
  }

  /** The iterator lists the non-zombie processes whose block was fetched and holds a NUL, each described
      by its own block, exactly when every block covers what the kernel wrote last in the same call. */
  lemma ListingIsOwnIff(procs: seq<KInfo>, replies: seq<ArgsReply>)
    requires |procs| == |replies| && forall k :: 0 <= k < |replies| ==> FitsArgs(replies[k])
    ensures Listing(procs, replies, 0, 0) == OwnListing(procs, replies, 0) <==> NoLeftovers(procs, replies, 0)
  {
    ListingIsOwnFromIff(procs, replies, 0, 0);
  }

  /** Every block delivered has the size announced. */
  predicate Honest(replies: seq<ArgsReply>) {
    forall i :: 0 <= i < |replies| && Delivered(replies[i]) ==> |replies[i].fetch.bytes| == replies[i].len
  }

  /** In particular if every block has the size announced. */
  lemma HonestKernelListsAll(procs: seq<KInfo>, replies: seq<ArgsReply>)
    requires |procs| == |replies| && forall k :: 0 <= k < |replies| ==> FitsArgs(replies[k])
    requires Honest(replies)
    ensures Listing(procs, replies, 0, 0) == OwnListing(procs, replies, 0)
  {
    ListingIsOwnIff(procs, replies);
  }

  lemma ShortBlockNames(r: ArgsReply)
    requires r == ArgsSized(4, Fetched("x"))
    ensures var data := After("abc", r);
            NUL in data && ExeFile(data) == "xbc" && NUL in Clean(r) && ExeFile(Clean(r)) == "x"
  {
    var data := After("abc", r);
    assert data == ['x', 'b', 'c', NUL];
    assert data[3] == NUL && Clean(r)[1] == NUL;
    LastSlashIsLast(data, FindNul(data));
    LastSlashIsLast(Clean(r), FindNul(Clean(r)));
  }

  /** One entry of two processes, the second, if only that one is eligible. */
  lemma SecondListed(procs: seq<KInfo>, replies: seq<ArgsReply>)
    requires |procs| == |replies| == 2 && FitsArgs(replies[0]) && FitsArgs(replies[1])
    requires !Eligible(procs, replies, 0, 0) && Eligible(procs, replies, 0, 1)
    ensures Listing(procs, replies, 0, 0) == [EntryFor(procs[1], Buffer(procs, replies, 0, 2))]
  {
    assert Listing(procs, replies, 2, 2) == [];
    assert Listing(procs, replies, 0, 1) == [EntryFor(procs[1], Buffer(procs, replies, 0, 2))];
  }

  lemma SecondMeant(procs: seq<KInfo>, replies: seq<ArgsReply>)
    requires |procs| == |replies| == 2 && FitsArgs(replies[0]) && FitsArgs(replies[1])
    requires !Listable(procs[0], replies[0]) && Listable(procs[1], replies[1])
    ensures OwnListing(procs, replies, 0) == [EntryFor(procs[1], Clean(replies[1]))]
  {
    assert OwnListing(procs, replies, 2) == [];
    assert OwnListing(procs, replies, 1) == [EntryFor(procs[1], Clean(replies[1]))];
  }

  /** A process whose block is shorter than announced can be given the rest of another one's name: two
      processes, the first with a block that has no NUL. */
  lemma StaleBytesExample(k1: KInfo, k2: KInfo)
    requires !Skipped(k1) && !Skipped(k2)
    ensures var procs, replies := [k1, k2], [ArgsSized(3, Fetched("abc")), ArgsSized(4, Fetched("x"))];
            var listed, own := Listing(procs, replies, 0, 0), OwnListing(procs, replies, 0);
            && |listed| == |own| == 1 && listed[0].pid == own[0].pid == k2.pid
            && listed[0].exeFile == "xbc" && own[0].exeFile == "x"
  {
    var r1, r2 := ArgsSized(3, Fetched("abc")), ArgsSized(4, Fetched("x"));
    assert Clean(r1) == "abc";
    ShortBlockNames(r2);
    var procs, replies := [k1, k2], [r1, r2];
    assert Buffer(procs, replies, 0, 1) == After("", r1) == "abc";
    assert Buffer(procs, replies, 0, 2) == After("abc", r2);
    SecondListed(procs, replies);
    SecondMeant(procs, replies);
  }
}
