/** The position-independent i386 dispatch stub: find the GOT from the program counter, load the
    current dispatch table, ask for one if there is none, and jump to the entry of the function.
    The stub is a list of instructions run by a small interpreter. */
module DispatchStub {
  import opened Options

  // ---------- The machine ----------

  const MODULUS: int := 0x1_0000_0000

  /** Registers and words of memory; arithmetic wraps around. */
  type Word = x: int | 0 <= x < MODULUS

  type Byte = b: int | 0 <= b < 256

  type Memory = int -> Byte

  function Wrap(x: int): Word {
    if 0 <= x < MODULUS then x else x % MODULUS
  }

  function Load(m: Memory, a: int): Word {
    m(a) + 0x100 * m(a + 1) + 0x1_0000 * m(a + 2) + 0x100_0000 * m(a + 3)
  }

  function ByteOf(w: Word, k: nat): Byte
    requires k < 4
  {
    if k == 0 then w % 0x100
    else if k == 1 then w / 0x100 % 0x100
    else if k == 2 then w / 0x1_0000 % 0x100
    else w / 0x100_0000
  }

  function Store(m: Memory, a: int, w: Word): Memory {
    var (b0, b1, b2, b3) := (ByteOf(w, 0), ByteOf(w, 1), ByteOf(w, 2), ByteOf(w, 3));
    (x: int) =>
      if x == a then b0 else if x == a + 1 then b1 else if x == a + 2 then b2 else if x == a + 3 then b3 else m(x)
  }

  predicate InRange(x: int, a: int, n: nat) {
    a <= x < a + n
  }

  /** Whether the word at a shares no byte with the n bytes from r on. */
  predicate Apart(a: int, r: int, n: nat) {
    a + 4 <= r || r + n <= a
  }

  lemma LoadStored(m: Memory, a: int, w: Word)
    ensures Load(Store(m, a, w), a) == w
  {
    BytesOfWord(w);
  }

  lemma BytesOfWord(w: Word)
    ensures w == ByteOf(w, 0) + 0x100 * ByteOf(w, 1) + 0x1_0000 * ByteOf(w, 2) + 0x100_0000 * ByteOf(w, 3)
  {
    assert w / 0x1_0000 == w / 0x100 / 0x100;
    assert w / 0x100_0000 == w / 0x1_0000 / 0x100;
  }

  /** The least significant byte comes first. */
  lemma LittleEndian(m: Memory, a: int)
    ensures Load(m, a) % 0x100 == m(a) && Load(m, a) / 0x100_0000 == m(a + 3)
  {
    var low := m(a) + 0x100 * m(a + 1) + 0x1_0000 * m(a + 2);
    assert Load(m, a) == low + 0x100_0000 * m(a + 3) && 0 <= low < 0x100_0000;
    assert Load(m, a) == m(a) + 0x100 * (m(a + 1) + 0x100 * m(a + 2) + 0x1_0000 * m(a + 3));
  }

  lemma LoadElsewhere(m: Memory, a: int, w: Word, b: int)
    requires Apart(b, a, 4)
    ensures Load(Store(m, a, w), b) == Load(m, b)
  {
  }

  datatype State = State(eax: Word, ebx: Word, ecx: Word, edx: Word, esp: Word, eip: Word, zf: bool, mem: Memory)

  datatype Instr =
    | PushEbx
    | PopEbx
    | Call(rel: int)
    | AddEbx(imm: Word)
    | LoadEaxFromEbx(disp: int)
    | LoadEaxFromEax
    | TestEax
    | Jne(rel: int)
    | JmpIndirectEax(disp: int)

  /** Encoded length: immediates and symbolic displacements take four bytes, that of jne one; a numeric
      displacement is left out, or takes one byte or four. */
  function Size(i: Instr): nat {
    match i
    case PushEbx | PopEbx => 1
    case Call(_) => 5
    case AddEbx(_) | LoadEaxFromEbx(_) => 6
    case JmpIndirectEax(disp) => if disp == 0 then 2 else if -128 <= disp < 128 then 3 else 6
    case LoadEaxFromEax | TestEax | Jne(_) => 2
  }

  function Push(s: State, w: Word): State {
    var esp := Wrap(s.esp - 4);
    s.(esp := esp, mem := Store(s.mem, esp, w))
  }

  /** One instruction; branches are relative to the instruction that follows. */
  function Exec(i: Instr, s: State): State {
    var next := Wrap(s.eip + Size(i));
    match i
    case PushEbx => Push(s, s.ebx).(eip := next)
    case PopEbx => s.(ebx := Load(s.mem, s.esp), esp := Wrap(s.esp + 4), eip := next)
    case Call(rel) => Push(s, next).(eip := Wrap(next + rel))
    case AddEbx(imm) => s.(ebx := Wrap(s.ebx + imm), zf := Wrap(s.ebx + imm) == 0, eip := next)
    case LoadEaxFromEbx(disp) => s.(eax := Load(s.mem, Wrap(s.ebx + disp)), eip := next)
    case LoadEaxFromEax => s.(eax := Load(s.mem, s.eax), eip := next)
    case TestEax => s.(zf := s.eax == 0, eip := next)
    case Jne(rel) => s.(eip := if s.zf then next else Wrap(next + rel))
    case JmpIndirectEax(disp) => s.(eip := Load(s.mem, Wrap(s.eax + disp)))
  }

  // ---------- The stub ----------

  /** What the linker knows: distances from the stub to the GOT and to the PLT entry of the getter,
      the offset of the table variable's slot in the GOT, and the number of the function. None of
      it depends on where the library is loaded. */
  datatype Link = Link(gotOff: int, pltOff: int, gotSlot: int, slot: nat)

  const LABEL: nat := 6
  const ADD_AT: nat := 7
  const ADD_FIELD: nat := 2

  /** The immediate of the addl: GOT + addend - place, where the addend is the distance of the
      instruction from the label plus that of the field within the instruction. */
  function GotImmediate(l: Link): Word {
    Wrap(l.gotOff + (ADD_AT - LABEL + ADD_FIELD) - (ADD_AT + ADD_FIELD))
  }

  /** STUB_ASM_CODE */
  function Code(l: Link): seq<Instr> {
    [PushEbx,
     Call(0),
     PopEbx,
     AddEbx(GotImmediate(l)),
     LoadEaxFromEbx(l.gotSlot),
     LoadEaxFromEax,
     TestEax,
     Jne(5),
     Call(l.pltOff - 30),
     PopEbx,
     JmpIndirectEax(4 * l.slot)]
  }

  function Offset(c: seq<Instr>, n: nat): nat
    requires n <= |c|
  {
    if n == 0 then 0 else Offset(c, n - 1) + Size(c[n - 1])
  }

  /** Whether an instruction starts at an offset into the stub. */
  predicate Starts(off: int) {
    off in {0, 1, 6, 7, 13, 19, 21, 23, 25, 30, 31}
  }

  /** The instruction that starts at an offset. */
  function InstrAt(l: Link, off: int): Instr
    requires Starts(off)
  {
    if off == 0 then PushEbx
    else if off == 1 then Call(0)
    else if off == 6 || off == 30 then PopEbx
    else if off == 7 then AddEbx(GotImmediate(l))
    else if off == 13 then LoadEaxFromEbx(l.gotSlot)
    else if off == 19 then LoadEaxFromEax
    else if off == 21 then TestEax
    else if off == 23 then Jne(5)
    else if off == 25 then Call(l.pltOff - 30)
    else JmpIndirectEax(4 * l.slot)
  }

  /** The instructions found by offset are those of the stub, laid out by their encoded lengths; the
      stub is longer than 32 bytes, so the entry size of 64 is needed, and enough. */
  lemma StubLayout(l: Link)
    ensures |Code(l)| == 11
    ensures forall n :: 0 <= n < 11 ==>
              Starts(Offset(Code(l), n)) && InstrAt(l, Offset(Code(l), n)) == Code(l)[n]
    ensures 32 < Offset(Code(l), 11) <= 64
  {
    var c := Code(l);
    assert Offset(c, 1) == 1;
    assert Offset(c, 2) == 6;
    assert Offset(c, 3) == 7;
    assert Offset(c, 4) == 13;
    assert Offset(c, 5) == 19;
    assert Offset(c, 6) == 21;
    assert Offset(c, 7) == 23;
    assert Offset(c, 8) == 25;
    assert Offset(c, 9) == 30;
    assert Offset(c, 10) == 31;
    assert Offset(c, 11) == 31 + Size(c[10]);
  }

  /** The getter as its caller sees it: a result, and effects on memory and scratch registers. */
  datatype Getter = Getter(result: Word, ecx: Word, edx: Word, zf: bool, effect: Memory -> Memory)

  /** The stub at `base`, with the state on entry and what the environment guarantees. */
  datatype Entry = Entry(base: Word, link: Link, s0: State, getter: Getter, tableVar: Word, frame: int -> bool)

  function Got(c: Entry): int {
    c.base + c.link.gotOff
  }

  function Plt(c: Entry): int {
    c.base + c.link.pltOff
  }

  function GotSlot(c: Entry): Word {
    Wrap(Got(c) + c.link.gotSlot)
  }

  function TableEntry(c: Entry): Word {
    Wrap(Table(c) + 4 * c.link.slot)
  }

  function CurrentTable(c: Entry): Word {
    Load(c.s0.mem, c.tableVar)
  }

  function Table(c: Entry): Word {
    if CurrentTable(c) != 0 then CurrentTable(c) else c.getter.result
  }

  /** The eight bytes below the stack pointer, which the stub uses. */
  predicate Scratch(c: Entry, x: int) {
    InRange(x, c.s0.esp - 8, 8)
  }

  /** The getter leaves alone its callers' frames: the bytes in `frame` and the saved register. */
  ghost predicate Respects(c: Entry) {
    forall m: Memory, x: int :: c.frame(x) || InRange(x, c.s0.esp - 4, 4) ==> c.getter.effect(m)(x) == m(x)
  }

  /** The GOT slot holds the address of the table variable; neither lies in the scratch bytes; the
      PLT entry is outside the stub; the getter respects the saved register and the caller's frame,
      which does not include the scratch bytes. */
  ghost predicate Assumptions(c: Entry) {
    && c.s0.eip == c.base && c.base + 37 <= MODULUS && c.s0.esp >= 8
    && 0 <= Got(c) < MODULUS && 0 <= Plt(c) < MODULUS && !(0 <= c.link.pltOff < 37)
    && Load(c.s0.mem, GotSlot(c)) == c.tableVar
    && Apart(GotSlot(c), c.s0.esp - 8, 8)
    && Apart(c.tableVar, c.s0.esp - 8, 8)
    && (forall x :: c.frame(x) ==> !Scratch(c, x))
    && Respects(c)
  }

  /** A call through the PLT, up to and including the return. The PLT entry finds the getter through the
      GOT, whose address it expects in ebx. */
  function Return(c: Entry, s: State): State
    requires s.ebx == Got(c)
  {
    var m := c.getter.effect(s.mem);
    State(c.getter.result, s.ebx, c.getter.ecx, c.getter.edx, Wrap(s.esp + 4), Load(s.mem, s.esp), c.getter.zf, m)
  }

  // ---------- What holds at each instruction ----------

  ghost predicate Same(c: Entry, m: Memory) {
    forall x :: !Scratch(c, x) ==> m(x) == c.s0.mem(x)
  }

  ghost predicate SavedEbx(c: Entry, s: State) {
    Load(s.mem, c.s0.esp - 4) == c.s0.ebx
  }

  /** The memory once a table is known: only scratch bytes written if there was a current table; the
      caller's frame intact in either case. */
  ghost predicate MemoryAfter(c: Entry, m: Memory) {
    && (CurrentTable(c) != 0 ==> Same(c, m))
    && (forall x :: c.frame(x) ==> m(x) == c.s0.mem(x))
  }

  ghost predicate CallerSaved(c: Entry, s: State) {
    CurrentTable(c) != 0 ==> s.ecx == c.s0.ecx && s.edx == c.s0.edx
  }

  /** The states in which the instruction pointer stands at a given offset; 37 for the PLT entry. */
  ghost predicate Reached(c: Entry, off: nat, s: State) {
    && s.eip == (if off == 37 then Plt(c) else c.base + off)
    && CallerSaved(c, s)
    && (off == 0 ==> s == c.s0)
    && (off == 1 ==> s.esp == c.s0.esp - 4)
    && (off == 6 ==> s.esp == c.s0.esp - 8 && Load(s.mem, s.esp) == c.base + LABEL)
    && (7 <= off <= 30 ==> s.esp == c.s0.esp - 4)
    && (1 <= off <= 30 || off == 37 ==> SavedEbx(c, s))
    && (off <= 25 || off == 37 ==> Same(c, s.mem))
    && (off == 7 ==> s.ebx == c.base + LABEL)
    && (13 <= off <= 25 || off == 37 ==> s.ebx == Got(c))
    && (off == 19 ==> s.eax == c.tableVar)
    && (21 <= off <= 25 ==> s.eax == CurrentTable(c))
    && (off == 23 ==> (s.zf <==> CurrentTable(c) == 0))
    && (off == 25 || off == 37 ==> CurrentTable(c) == 0)
    && (off == 37 ==> s.esp == c.s0.esp - 8 && Load(s.mem, s.esp) == c.base + 30)
    && (30 <= off <= 31 ==> s.eax == Table(c) && MemoryAfter(c, s.mem))
    && (off == 31 ==> s.esp == c.s0.esp && s.ebx == c.s0.ebx)
  }

  /** Where control goes next. */
  function NextOffset(c: Entry, off: nat): nat {
    if off == 0 then 1 else if off == 1 then 6 else if off == 6 then 7 else if off == 7 then 13
    else if off == 13 then 19 else if off == 19 then 21 else if off == 21 then 23
    else if off == 23 then (if CurrentTable(c) == 0 then 25 else 30)
    else if off == 25 then 37 else if off == 37 then 30 else 31
  }

  lemma SameLoad(c: Entry, m: Memory, a: int)
    requires Same(c, m) && Apart(a, c.s0.esp - 8, 8)
    ensures Load(m, a) == Load(c.s0.mem, a)
  {
    assert !Scratch(c, a) && !Scratch(c, a + 1) && !Scratch(c, a + 2) && !Scratch(c, a + 3);
  }

  lemma StoreScratch(c: Entry, m: Memory, a: int, w: Word)
    requires Same(c, m) && (a == c.s0.esp - 4 || a == c.s0.esp - 8)
    ensures Same(c, Store(m, a, w))
  {
  }

  lemma StepPush(c: Entry, s: State)
    requires Assumptions(c) && Reached(c, 0, s)
    ensures Reached(c, 1, Exec(PushEbx, s))
  {
    StoreScratch(c, s.mem, s.esp - 4, s.ebx);
    LoadStored(s.mem, s.esp - 4, s.ebx);
  }

  /** Pushing a return address below the saved ebx. */
  lemma PushReturn(c: Entry, m: Memory, next: Word)
    requires Assumptions(c) && Same(c, m) && Load(m, c.s0.esp - 4) == c.s0.ebx
    ensures var pushed := Store(m, c.s0.esp - 8, next);
            Same(c, pushed) && Load(pushed, c.s0.esp - 8) == next && Load(pushed, c.s0.esp - 4) == c.s0.ebx
  {
    StoreScratch(c, m, c.s0.esp - 8, next);
    LoadStored(m, c.s0.esp - 8, next);
    LoadElsewhere(m, c.s0.esp - 8, next, c.s0.esp - 4);
  }

  lemma StepCall(c: Entry, s: State)
    requires Assumptions(c) && Reached(c, 1, s)
    ensures Reached(c, 6, Exec(Call(0), s))
  {
    PushReturn(c, s.mem, Wrap(s.eip + 5));
  }

  lemma WrapSum(x: int, y: int)
    requires 0 <= x && 0 <= x + y < MODULUS
    ensures Wrap(x + Wrap(y)) == x + y
  {
  }

  lemma StepGot(c: Entry, s: State)
    requires Assumptions(c) && Reached(c, 7, s)
    ensures Reached(c, 13, Exec(AddEbx(GotImmediate(c.link)), s))
  {
    WrapSum(c.base + LABEL, c.link.gotOff - LABEL);
  }

  lemma StepSlot(c: Entry, s: State)
    requires Assumptions(c) && Reached(c, 13, s)
    ensures Reached(c, 19, Exec(LoadEaxFromEbx(c.link.gotSlot), s))
  {
    SameLoad(c, s.mem, GotSlot(c));
  }

  lemma StepTable(c: Entry, s: State)
    requires Assumptions(c) && Reached(c, 19, s)
    ensures Reached(c, 21, Exec(LoadEaxFromEax, s))
  {
    SameLoad(c, s.mem, c.tableVar);
  }

  lemma StepBranch(c: Entry, s: State)
    requires Assumptions(c) && Reached(c, 23, s)
    ensures Reached(c, NextOffset(c, 23), Exec(Jne(5), s))
  {
  }

  lemma StepCallGetter(c: Entry, s: State)
    requires Assumptions(c) && Reached(c, 25, s)
    ensures Reached(c, 37, Exec(Call(c.link.pltOff - 30), s))
  {
    CallLands(s, c.link.pltOff - 30);
    PushReturn(c, s.mem, c.base + 30);
  }

  /** A call that wraps around nowhere. */
  lemma CallLands(s: State, rel: int)
    requires s.esp >= 4 && s.eip + 5 < MODULUS && 0 <= s.eip + 5 + rel < MODULUS
    ensures var next := s.eip + 5;
            Exec(Call(rel), s) == s.(esp := s.esp - 4, mem := Store(s.mem, s.esp - 4, next), eip := next + rel)
  {
  }

  lemma StepReturn(c: Entry, s: State)
    requires Assumptions(c) && Reached(c, 37, s)
    ensures s.ebx == Got(c) && Reached(c, 30, Return(c, s))
  {
    var a := c.s0.esp - 4;
    GetterKeeps(c, s.mem, a);
    GetterKeeps(c, s.mem, a + 1);
    GetterKeeps(c, s.mem, a + 2);
    GetterKeeps(c, s.mem, a + 3);
    FrameKept(c, s.mem);
  }

  lemma GetterKeeps(c: Entry, m: Memory, x: int)
    requires Respects(c) && (c.frame(x) || InRange(x, c.s0.esp - 4, 4))
    ensures c.getter.effect(m)(x) == m(x)
  {
  }

  lemma FrameKept(c: Entry, m: Memory)
    requires Assumptions(c) && Same(c, m)
    ensures forall x :: c.frame(x) ==> c.getter.effect(m)(x) == c.s0.mem(x)
  {
    forall x | c.frame(x)
      ensures c.getter.effect(m)(x) == c.s0.mem(x)
    {
      GetterKeeps(c, m, x);
    }
  }

  lemma StepPop(c: Entry, s: State)
    requires Assumptions(c) && (Reached(c, 6, s) || Reached(c, 30, s))
    ensures Reached(c, 6, s) ==> Reached(c, 7, Exec(PopEbx, s))
    ensures Reached(c, 30, s) ==> Reached(c, 31, Exec(PopEbx, s))
  {
  }

  lemma StepTest(c: Entry, s: State)
    requires Assumptions(c) && Reached(c, 21, s)
    ensures Reached(c, 23, Exec(TestEax, s))
  {
  }

  /** One turn of the interpreter keeps the assertions. */
  lemma StepReaches(c: Entry, off: nat, s: State)
    requires Assumptions(c) && Reached(c, off, s) && Starts(off) && off != 31
    ensures Reached(c, NextOffset(c, off), Exec(InstrAt(c.link, off), s))
  {
    if off == 0 { StepPush(c, s); }
    else if off == 1 { StepCall(c, s); }
    else if off == 6 || off == 30 { StepPop(c, s); }
    else if off == 7 { StepGot(c, s); }
    else if off == 13 { StepSlot(c, s); }
    else if off == 19 { StepTable(c, s); }
    else if off == 21 { StepTest(c, s); }
    else if off == 23 { StepBranch(c, s); }
    else { StepCallGetter(c, s); }
  }

  /** What the stub leaves when it jumps. */
  ghost predicate Done(c: Entry, s: State) {
    && s.eip == Load(s.mem, TableEntry(c))
    && s.eax == Table(c) && s.esp == c.s0.esp && s.ebx == c.s0.ebx
    && MemoryAfter(c, s.mem) && CallerSaved(c, s)
  }

  lemma DoneMeans(c: Entry, s: State)
    requires Done(c, s)
    ensures var current := Load(c.s0.mem, c.tableVar);
            && s.eax == (if current != 0 then current else c.getter.result)
            && s.eip == Load(s.mem, (s.eax + 4 * c.link.slot) % 0x1_0000_0000)
            && (current != 0 ==> forall x :: !(c.s0.esp - 8 <= x < c.s0.esp) ==> s.mem(x) == c.s0.mem(x))
  {
  }

  lemma StepJump(c: Entry, s: State)
    requires Assumptions(c) && Reached(c, 31, s)
    ensures Done(c, Exec(JmpIndirectEax(4 * c.link.slot), s))
  {
  }

  /** How far the stub has come, for termination. */
  function Progress(off: nat): nat {
    if off == 37 then 29 else off
  }

  lemma ReachedDecides(c: Entry, off: nat, s: State)
    requires Assumptions(c) && Reached(c, off, s) && (off == 37 || Starts(off))
    ensures s.eip == Plt(c) <==> off == 37
    ensures off != 37 ==> s.eip - c.base == off
  {
  }

  lemma NextIsLater(c: Entry, off: nat)
    requires off == 37 || (Starts(off) && off != 31)
    ensures var n := NextOffset(c, off); (n == 37 || Starts(n)) && Progress(off) < Progress(n) <= 31
  {
  }

  /** Running the stub from its first instruction ends with a jump to the entry of the function in
      the current table, or in the one the getter supplies if there is none. The stack pointer, ebx
      and the caller's frame are as on entry; with a table at hand nothing but eax, the flags and the
      eight bytes below the stack pointer has changed; without one the PLT entry of the getter is
      entered, with the address of the GOT in ebx. */
  method RunStub(c: Entry) returns (s: State, atPlt: Option<State>)
    requires Assumptions(c)
    ensures s.eip == Load(s.mem, TableEntry(c))
    ensures s.eax == Table(c) && s.esp == c.s0.esp && s.ebx == c.s0.ebx
    ensures forall x :: c.frame(x) ==> s.mem(x) == c.s0.mem(x)
    ensures CurrentTable(c) != 0 ==> Same(c, s.mem) && s.ecx == c.s0.ecx && s.edx == c.s0.edx
    ensures var current := Load(c.s0.mem, c.tableVar);
            && s.eax == (if current != 0 then current else c.getter.result)
            && s.eip == Load(s.mem, (s.eax + 4 * c.link.slot) % 0x1_0000_0000)
            && (current != 0 ==> forall x :: !(c.s0.esp - 8 <= x < c.s0.esp) ==> s.mem(x) == c.s0.mem(x))
    ensures CurrentTable(c) != 0 <==> atPlt.None?
    ensures atPlt.Some? ==> atPlt.value.eip == Plt(c) && atPlt.value.ebx == Got(c)
  {
    atPlt := None;
    s := c.s0;
    ghost var off: nat := 0;
    var left := false;
    while !left
      invariant !left ==> Reached(c, off, s) && (off == 37 || Starts(off))
      invariant left ==> Done(c, s)
      invariant atPlt.Some? ==> CurrentTable(c) == 0 && atPlt.value.eip == Plt(c) && atPlt.value.ebx == Got(c)
      invariant CurrentTable(c) == 0 && (left || off == 30 || off == 31) ==> atPlt.Some?
      decreases if left then 0 else 32 - Progress(off)
    {
      ReachedDecides(c, off, s);
      if s.eip == Plt(c) {
        StepReturn(c, s);
        atPlt := Some(s);
        s := Return(c, s);
      } else {
        var instr := InstrAt(c.link, s.eip - c.base);
        left := instr.JmpIndirectEax?;
        if left {
          StepJump(c, s);
        } else {
          StepReaches(c, off, s);
        }
        s := Exec(instr, s);
      }
      if !left {
        NextIsLater(c, off);
        off := NextOffset(c, off);
      }
    }
    DoneMeans(c, s);
  }

  /** Where the table's entry is outside the scratch bytes, the target is the one that stood there on
      entry. */
  lemma TargetAsOnEntry(c: Entry, m: Memory)
    requires CurrentTable(c) != 0 && Same(c, m)
    requires Apart(TableEntry(c), c.s0.esp - 8, 8)
    ensures Load(m, TableEntry(c)) == Load(c.s0.mem, Wrap(CurrentTable(c) + 4 * c.link.slot))
  {
    SameLoad(c, m, TableEntry(c));
  }
}
