/**
The anti-debug surface: one packed DR7 per thread against an abstract array of
four breakpoints, and the attach state.

DR7 layout (section 17.2.4 of the Intel SDM, volume 3): local-enable bits at
0, 2, 4, 6 and a four-bit condition/length field per slot from bit 16 on.
*/
module DebugRegisters {
  import opened Wrappers

  type Slot = s: int | 0 <= s <= 3

  type Code = c: bv64 | c < 4

  /** One breakpoint as a debugger sees it: `length` is the encoded length. */
  datatype Breakpoint = Breakpoint(enabled: bool, condition: Code, length: Code)

  datatype Bank = Bank(b0: Breakpoint, b1: Breakpoint, b2: Breakpoint, b3: Breakpoint) {
    function Get(slot: Slot): Breakpoint {
      if slot == 0 then b0 else if slot == 1 then b1 else if slot == 2 then b2 else b3
    }

    /** This bank with another breakpoint in one slot. */
    function Put(slot: Slot, b: Breakpoint): (r: Bank)
      ensures forall s: Slot :: r.Get(s) == if s == slot then b else Get(s)
    {
      if slot == 0 then Bank(b, b1, b2, b3)
      else if slot == 1 then Bank(b0, b, b2, b3)
      else if slot == 2 then Bank(b0, b1, b, b3)
      else Bank(b0, b1, b2, b)
    }
  }

  const CLEARED := Breakpoint(false, 0, 0)
  const NO_BREAKPOINTS := Bank(CLEARED, CLEARED, CLEARED, CLEARED)

  // ----- Packing -----

  type Bit = b: bv64 | b < 2
  type Nibble = n: bv64 | n < 16

  function EnableOf(b: Breakpoint): Bit {
    if b.enabled then 1 else 0
  }

  function NibbleOf(b: Breakpoint): Nibble {
    (b.length << 2) | b.condition
  }

  function PackBits(e0: Bit, e1: Bit, e2: Bit, e3: Bit, n0: Nibble, n1: Nibble, n2: Nibble, n3: Nibble): bv64 {
    e0 | (e1 << 2) | (e2 << 4) | (e3 << 6) | (n0 << 16) | (n1 << 20) | (n2 << 24) | (n3 << 28)
  }

  /** The register that stands for a bank. */
  function Pack(bank: Bank): bv64 {
    PackBits(EnableOf(bank.b0), EnableOf(bank.b1), EnableOf(bank.b2), EnableOf(bank.b3),
             NibbleOf(bank.b0), NibbleOf(bank.b1), NibbleOf(bank.b2), NibbleOf(bank.b3))
  }

  // ----- The register operations of the source -----

  function EnableShift(slot: Slot): bv7 {
    if slot == 0 then 0 else if slot == 1 then 2 else if slot == 2 then 4 else 6
  }

  function FieldShift(slot: Slot): bv7 {
    if slot == 0 then 16 else if slot == 1 then 20 else if slot == 2 then 24 else 28
  }

  /** Clear the field, then or in a nibble and an enable bit. */
  function SetBits(dr7: bv64, slot: Slot, nibble: bv64): bv64 {
    ((dr7 & !(0xF << FieldShift(slot))) | (nibble << FieldShift(slot))) | (1 << EnableShift(slot))
  }

  function ClearBits(dr7: bv64, slot: Slot): bv64 {
    (dr7 & !(0xF << FieldShift(slot))) & !(1 << EnableShift(slot))
  }

  predicate IsEnabled(dr7: bv64, slot: Slot) {
    (dr7 >> EnableShift(slot)) & 1 == 1
  }

  function Condition(dr7: bv64, slot: Slot): bv64 {
    (dr7 >> FieldShift(slot)) & 3
  }

  function LengthCode(dr7: bv64, slot: Slot): bv64 {
    (dr7 >> (FieldShift(slot) + 2)) & 3
  }

  // ----- The register refines the bank -----

  // One lemma a slot keeps each bit-vector query small.

  lemma SetSlot0(e0: Bit, e1: Bit, e2: Bit, e3: Bit, n0: Nibble, n1: Nibble, n2: Nibble, n3: Nibble, n: Nibble)
    ensures SetBits(PackBits(e0, e1, e2, e3, n0, n1, n2, n3), 0, n) == PackBits(1, e1, e2, e3, n, n1, n2, n3)
  {
  }

  lemma SetSlot1(e0: Bit, e1: Bit, e2: Bit, e3: Bit, n0: Nibble, n1: Nibble, n2: Nibble, n3: Nibble, n: Nibble)
    ensures SetBits(PackBits(e0, e1, e2, e3, n0, n1, n2, n3), 1, n) == PackBits(e0, 1, e2, e3, n0, n, n2, n3)
  {
  }

  lemma SetSlot2(e0: Bit, e1: Bit, e2: Bit, e3: Bit, n0: Nibble, n1: Nibble, n2: Nibble, n3: Nibble, n: Nibble)
    ensures SetBits(PackBits(e0, e1, e2, e3, n0, n1, n2, n3), 2, n) == PackBits(e0, e1, 1, e3, n0, n1, n, n3)
  {
  }

  lemma SetSlot3(e0: Bit, e1: Bit, e2: Bit, e3: Bit, n0: Nibble, n1: Nibble, n2: Nibble, n3: Nibble, n: Nibble)
    ensures SetBits(PackBits(e0, e1, e2, e3, n0, n1, n2, n3), 3, n) == PackBits(e0, e1, e2, 1, n0, n1, n2, n)
  {
  }

  lemma ClearSlot0(e0: Bit, e1: Bit, e2: Bit, e3: Bit, n0: Nibble, n1: Nibble, n2: Nibble, n3: Nibble)
    ensures ClearBits(PackBits(e0, e1, e2, e3, n0, n1, n2, n3), 0) == PackBits(0, e1, e2, e3, 0, n1, n2, n3)
  {
  }

  lemma ClearSlot1(e0: Bit, e1: Bit, e2: Bit, e3: Bit, n0: Nibble, n1: Nibble, n2: Nibble, n3: Nibble)
    ensures ClearBits(PackBits(e0, e1, e2, e3, n0, n1, n2, n3), 1) == PackBits(e0, 0, e2, e3, n0, 0, n2, n3)
  {
  }

  lemma ClearSlot2(e0: Bit, e1: Bit, e2: Bit, e3: Bit, n0: Nibble, n1: Nibble, n2: Nibble, n3: Nibble)
    ensures ClearBits(PackBits(e0, e1, e2, e3, n0, n1, n2, n3), 2) == PackBits(e0, e1, 0, e3, n0, n1, 0, n3)
  {
  }

  lemma ClearSlot3(e0: Bit, e1: Bit, e2: Bit, e3: Bit, n0: Nibble, n1: Nibble, n2: Nibble, n3: Nibble)
    ensures ClearBits(PackBits(e0, e1, e2, e3, n0, n1, n2, n3), 3) == PackBits(e0, e1, e2, 0, n0, n1, n2, 0)
  {
  }

  lemma ReadSlot0(e0: Bit, e1: Bit, e2: Bit, e3: Bit, n0: Nibble, n1: Nibble, n2: Nibble, n3: Nibble)
    ensures var dr7 := PackBits(e0, e1, e2, e3, n0, n1, n2, n3);
            (IsEnabled(dr7, 0) <==> e0 == 1) && Condition(dr7, 0) == n0 & 3 && LengthCode(dr7, 0) == n0 >> 2
  {
  }

  lemma ReadSlot1(e0: Bit, e1: Bit, e2: Bit, e3: Bit, n0: Nibble, n1: Nibble, n2: Nibble, n3: Nibble)
    ensures var dr7 := PackBits(e0, e1, e2, e3, n0, n1, n2, n3);
            (IsEnabled(dr7, 1) <==> e1 == 1) && Condition(dr7, 1) == n1 & 3 && LengthCode(dr7, 1) == n1 >> 2
  {
  }

  lemma ReadSlot2(e0: Bit, e1: Bit, e2: Bit, e3: Bit, n0: Nibble, n1: Nibble, n2: Nibble, n3: Nibble)
    ensures var dr7 := PackBits(e0, e1, e2, e3, n0, n1, n2, n3);
            (IsEnabled(dr7, 2) <==> e2 == 1) && Condition(dr7, 2) == n2 & 3 && LengthCode(dr7, 2) == n2 >> 2
  {
  }

  lemma ReadSlot3(e0: Bit, e1: Bit, e2: Bit, e3: Bit, n0: Nibble, n1: Nibble, n2: Nibble, n3: Nibble)
    ensures var dr7 := PackBits(e0, e1, e2, e3, n0, n1, n2, n3);
            (IsEnabled(dr7, 3) <==> e3 == 1) && Condition(dr7, 3) == n3 & 3 && LengthCode(dr7, 3) == n3 >> 2
  {
  }

  /** Setting a slot's bits is storing a breakpoint in that slot and nothing else. */
  lemma SetRefines(bank: Bank, slot: Slot, condition: Code, length: Code)
    ensures SetBits(Pack(bank), slot, (length << 2) | condition) ==
            Pack(bank.Put(slot, Breakpoint(true, condition, length)))
  {
    hide SetBits, PackBits;
    var n := NibbleOf(Breakpoint(true, condition, length));
    var e0, e1, e2, e3 := EnableOf(bank.b0), EnableOf(bank.b1), EnableOf(bank.b2), EnableOf(bank.b3);
    var n0, n1, n2, n3 := NibbleOf(bank.b0), NibbleOf(bank.b1), NibbleOf(bank.b2), NibbleOf(bank.b3);
    if slot == 0 {
      SetSlot0(e0, e1, e2, e3, n0, n1, n2, n3, n);
    } else if slot == 1 {
      SetSlot1(e0, e1, e2, e3, n0, n1, n2, n3, n);
    } else if slot == 2 {
      SetSlot2(e0, e1, e2, e3, n0, n1, n2, n3, n);
    } else {
      SetSlot3(e0, e1, e2, e3, n0, n1, n2, n3, n);
    }
  }

  lemma ClearRefines(bank: Bank, slot: Slot)
    ensures ClearBits(Pack(bank), slot) == Pack(bank.Put(slot, CLEARED))
  {
    hide ClearBits, PackBits;
    assert NibbleOf(CLEARED) == 0;
    var e0, e1, e2, e3 := EnableOf(bank.b0), EnableOf(bank.b1), EnableOf(bank.b2), EnableOf(bank.b3);
    var n0, n1, n2, n3 := NibbleOf(bank.b0), NibbleOf(bank.b1), NibbleOf(bank.b2), NibbleOf(bank.b3);
    if slot == 0 {
      ClearSlot0(e0, e1, e2, e3, n0, n1, n2, n3);
    } else if slot == 1 {
      ClearSlot1(e0, e1, e2, e3, n0, n1, n2, n3);
    } else if slot == 2 {
      ClearSlot2(e0, e1, e2, e3, n0, n1, n2, n3);
    } else {
      ClearSlot3(e0, e1, e2, e3, n0, n1, n2, n3);
    }
  }

  lemma NibbleReadsBack(b: Breakpoint)
    ensures NibbleOf(b) & 3 == b.condition && NibbleOf(b) >> 2 == b.length
  {
  }

  predicate ReadsAs(dr7: bv64, slot: Slot, b: Breakpoint) {
    IsEnabled(dr7, slot) == b.enabled && Condition(dr7, slot) == b.condition && LengthCode(dr7, slot) == b.length
  }

  lemma ReadsBack0(bank: Bank)
    ensures ReadsAs(Pack(bank), 0, bank.b0)
  {
    NibbleReadsBack(bank.b0);
    hide IsEnabled, Condition, LengthCode, PackBits, NibbleOf;
    ReadSlot0(EnableOf(bank.b0), EnableOf(bank.b1), EnableOf(bank.b2), EnableOf(bank.b3),
              NibbleOf(bank.b0), NibbleOf(bank.b1), NibbleOf(bank.b2), NibbleOf(bank.b3));
  }

  lemma ReadsBack1(bank: Bank)
    ensures ReadsAs(Pack(bank), 1, bank.b1)
  {
    NibbleReadsBack(bank.b1);
    hide IsEnabled, Condition, LengthCode, PackBits, NibbleOf;
    ReadSlot1(EnableOf(bank.b0), EnableOf(bank.b1), EnableOf(bank.b2), EnableOf(bank.b3),
              NibbleOf(bank.b0), NibbleOf(bank.b1), NibbleOf(bank.b2), NibbleOf(bank.b3));
  }

  lemma ReadsBack2(bank: Bank)
    ensures ReadsAs(Pack(bank), 2, bank.b2)
  {
    NibbleReadsBack(bank.b2);
    hide IsEnabled, Condition, LengthCode, PackBits, NibbleOf;
    ReadSlot2(EnableOf(bank.b0), EnableOf(bank.b1), EnableOf(bank.b2), EnableOf(bank.b3),
              NibbleOf(bank.b0), NibbleOf(bank.b1), NibbleOf(bank.b2), NibbleOf(bank.b3));
  }

  lemma ReadsBack3(bank: Bank)
    ensures ReadsAs(Pack(bank), 3, bank.b3)
  {
    NibbleReadsBack(bank.b3);
    hide IsEnabled, Condition, LengthCode, PackBits, NibbleOf;
    ReadSlot3(EnableOf(bank.b0), EnableOf(bank.b1), EnableOf(bank.b2), EnableOf(bank.b3),
              NibbleOf(bank.b0), NibbleOf(bank.b1), NibbleOf(bank.b2), NibbleOf(bank.b3));
  }

  /** Every field of every slot reads back from the register. */
  lemma ReadsBack(bank: Bank, slot: Slot)
    ensures IsEnabled(Pack(bank), slot) == bank.Get(slot).enabled
    ensures Condition(Pack(bank), slot) == bank.Get(slot).condition
    ensures LengthCode(Pack(bank), slot) == bank.Get(slot).length
  {
    hide Pack, IsEnabled, Condition, LengthCode;
    ReadsBack0(bank);
    ReadsBack1(bank);
    ReadsBack2(bank);
    ReadsBack3(bank);
  }

  /** No register is the packing of two different banks. */
  lemma PackInjective(a: Bank, b: Bank)
    requires Pack(a) == Pack(b)
    ensures a == b
  {
    hide Pack, IsEnabled, Condition, LengthCode;
    forall slot: Slot
      ensures a.Get(slot) == b.Get(slot)
    {
      ReadsBack(a, slot);
      ReadsBack(b, slot);
    }
    assert a.b0 == a.Get(0) && a.b1 == a.Get(1) && a.b2 == a.Get(2) && a.b3 == a.Get(3);
    assert b.b0 == b.Get(0) && b.b1 == b.Get(1) && b.b2 == b.Get(2) && b.b3 == b.Get(3);
  }

  // ----- Whole runs of edits -----

  datatype Edit =
    | Set(thread: nat, slot: Slot, condition: Code, length: Code)
    | Clear(thread: nat, slot: Slot)

  /** A thread's register after a list of edits on any threads. */
  function RegisterAfter(edits: seq<Edit>, thread: nat): bv64 {
    if edits == [] then 0
    else
      var before, last := RegisterAfter(edits[..|edits| - 1], thread), edits[|edits| - 1];
      if last.thread != thread then before
      else
        match last
        case Set(_, slot, condition, length) => SetBits(before, slot, (length << 2) | condition)
        case Clear(_, slot) => ClearBits(before, slot)
  }

  /** What a slot holds by the last edit of that slot of that thread. */
  function LastEdit(edits: seq<Edit>, thread: nat, slot: Slot): Breakpoint {
    if edits == [] then CLEARED
    else
      var last := edits[|edits| - 1];
      if last.thread != thread || last.slot != slot then LastEdit(edits[..|edits| - 1], thread, slot)
      else
        match last
        case Set(_, _, condition, length) => Breakpoint(true, condition, length)
        case Clear(_, _) => CLEARED
  }

  function LastEdits(edits: seq<Edit>, thread: nat): Bank {
    Bank(LastEdit(edits, thread, 0), LastEdit(edits, thread, 1), LastEdit(edits, thread, 2), LastEdit(edits, thread, 3))
  }

  lemma LastEditsStep(edits: seq<Edit>, thread: nat)
    requires edits != []
    ensures var before, last := LastEdits(edits[..|edits| - 1], thread), edits[|edits| - 1];
            LastEdits(edits, thread) ==
            if last.thread != thread then before
            else if last.Set? then before.Put(last.slot, Breakpoint(true, last.condition, last.length))
            else before.Put(last.slot, CLEARED)
  {
  }

  lemma {:induction false} RegisterPacksLastEdits(edits: seq<Edit>, thread: nat)
    ensures RegisterAfter(edits, thread) == Pack(LastEdits(edits, thread))
  {
    hide Pack, SetBits, ClearBits, LastEdit, Bank.Put;
    if edits == [] {
      NothingEdited(thread);
    } else {
      var before, last := edits[..|edits| - 1], edits[|edits| - 1];
      RegisterPacksLastEdits(before, thread);
      LastEditsStep(edits, thread);
      if last.thread == thread {
        if last.Set? {
          SetRefines(LastEdits(before, thread), last.slot, last.condition, last.length);
        } else {
          ClearRefines(LastEdits(before, thread), last.slot);
        }
      }
    }
  }

  lemma NothingEdited(thread: nat)
    ensures Pack(LastEdits([], thread)) == 0
  {
    assert LastEdits([], thread) == NO_BREAKPOINTS;
  }

  /** Every slot of every thread reads back its own last edit, whatever was done to the others. */
  lemma EveryRunReadsBack(edits: seq<Edit>, thread: nat, slot: Slot)
    ensures IsEnabled(RegisterAfter(edits, thread), slot) == LastEdit(edits, thread, slot).enabled
    ensures Condition(RegisterAfter(edits, thread), slot) == LastEdit(edits, thread, slot).condition
    ensures LengthCode(RegisterAfter(edits, thread), slot) == LastEdit(edits, thread, slot).length
  {
    hide Pack, IsEnabled, Condition, LengthCode, LastEdit;
    RegisterPacksLastEdits(edits, thread);
    ReadsBack(LastEdits(edits, thread), slot);
  }

  // ----- The surface -----

  datatype Context = Context(dr0: bv64, dr1: bv64, dr2: bv64, dr3: bv64, dr6: bv64, dr7: bv64) {
    function Address(slot: Slot): bv64 {
      if slot == 0 then dr0 else if slot == 1 then dr1 else if slot == 2 then dr2 else dr3
    }

    function WithAddress(slot: Slot, address: bv64): (r: Context)
      ensures forall s: Slot :: r.Address(s) == if s == slot then address else Address(s)
      ensures r.dr6 == dr6 && r.dr7 == dr7
    {
      if slot == 0 then this.(dr0 := address)
      else if slot == 1 then this.(dr1 := address)
      else if slot == 2 then this.(dr2 := address)
      else this.(dr3 := address)
    }
  }

  /** A context with one slot programmed, as the source edits it. */
  function Programmed(c: Context, slot: Slot, address: bv64, condition: Code, length: Code): Context {
    c.WithAddress(slot, address).(dr7 := SetBits(c.dr7, slot, (length << 2) | condition))
  }

  lemma ProgrammedRefines(c: Context, bank: Bank, slot: Slot, address: bv64, condition: Code, length: Code)
    requires c.dr7 == Pack(bank)
    ensures var r := Programmed(c, slot, address, condition, length);
            && r.dr7 == Pack(bank.Put(slot, Breakpoint(true, condition, length)))
            && forall s: Slot :: r.Address(s) == if s == slot then address else c.Address(s)
  {
    hide Pack, SetBits;
    SetRefines(bank, slot, condition, length);
    var w := c.WithAddress(slot, address);
    assert forall s: Slot :: Programmed(c, slot, address, condition, length).Address(s) == w.Address(s);
  }

  function Cleared(c: Context, slot: Slot): Context {
    c.(dr7 := ClearBits(c.dr7, slot))
  }

  lemma ClearedRefines(c: Context, bank: Bank, slot: Slot)
    requires c.dr7 == Pack(bank)
    ensures Cleared(c, slot).dr7 == Pack(bank.Put(slot, CLEARED))
    ensures forall s: Slot :: Cleared(c, slot).Address(s) == c.Address(s)
  {
    hide Pack, ClearBits;
    ClearRefines(bank, slot);
  }

  const ZEROED := Context(0, 0, 0, 0, 0, 0)
  const DETACHED_PORT: bv64 := 0
  const ATTACHED_PORT: bv64 := 0xffff_ffff_ffff_ffff
  const FIRST_HANDLE := 0x1_0000
  const LAST_HANDLE := 0xffff_ffff_ffff_ffff

  datatype Error = InvalidParameter | ProcessNotFound | AlreadyAttached | NotAttached

  /** The encoded length of a watch of `bytes` bytes. */
  function CodeForLength(bytes: nat): Option<Code> {
    if bytes == 1 then Some(0)
    else if bytes == 2 then Some(1)
    else if bytes == 4 then Some(3)
    else if bytes == 8 then Some(2)
    else None
  }

  /** The number of bytes that a length field makes the processor watch. */
  function WatchedBytes(code: Code): nat {
    if code == 0 then 1 else if code == 1 then 2 else if code == 2 then 8 else 4
  }

  /** A length is encoded by the one field that makes the processor watch so many bytes, if there is one. */
  lemma CodeExactly(bytes: nat, code: Code)
    ensures CodeForLength(bytes) == Some(code) <==> WatchedBytes(code) == bytes
    ensures CodeForLength(bytes).Some? <==> bytes == 1 || bytes == 2 || bytes == 4 || bytes == 8
  {
  }

  class AntiDebugSurface {
    const processId: nat
    var attached: bool
    var debugPort: bv64
    var debugObject: Option<nat>
    var nextHandle: nat
    var contexts: map<nat, Context>

    /** What the debugger asked for, per thread that has a context. */
    ghost var banks: map<nat, Bank>

    /** Every DR7 packs the bank of its thread, and the three attach answers agree. */
    ghost predicate Valid()
      reads this
    {
      && banks.Keys == contexts.Keys
      && (forall t | t in contexts :: contexts[t].dr7 == Pack(banks[t]))
      && (attached <==> debugPort == ATTACHED_PORT) && (attached <==> debugObject.Some?)
      && (!attached ==> debugPort == DETACHED_PORT)
    }

    ghost function BankOf(thread: nat): Bank
      reads this
    {
      if thread in banks then banks[thread] else NO_BREAKPOINTS
    }

    function ThreadContext(thread: nat): Context
      reads this
    {
      if thread in contexts then contexts[thread] else ZEROED
    }

    constructor (processId: nat)
      ensures Valid() && !attached && contexts == map[] && this.processId == processId && nextHandle == FIRST_HANDLE
    {
      this.processId := processId;
      attached, debugPort, debugObject, nextHandle := false, DETACHED_PORT, None, FIRST_HANDLE;
      contexts, banks := map[], map[];
    }

    method SetHardwareBreakpoint(thread: nat, slot: nat, address: bv64, condition: bv64, bytes: nat)
      returns (r: Result<(), Error>)
      requires Valid()
      modifies this`contexts, this`banks
      ensures Valid()
      ensures r.Ok? <==> slot <= 3 && condition <= 3 && (bytes == 1 || bytes == 2 || bytes == 4 || bytes == 8)
      ensures r.Err? ==> r.error == InvalidParameter && banks == old(banks) && contexts == old(contexts)
      ensures r.Ok? ==>
                && (forall length: Code | WatchedBytes(length) == bytes ::
                      banks == old(banks)[thread := old(BankOf(thread)).Put(slot, Breakpoint(true, condition, length))])
                && (exists length: Code :: WatchedBytes(length) == bytes)
                && forall s: Slot :: ThreadContext(thread).Address(s) ==
                                     if s == slot then address else old(ThreadContext(thread)).Address(s)
      ensures forall t | t != thread :: ThreadContext(t) == old(ThreadContext(t))
    {
      hide Pack, Programmed, Bank.Put, Context.Address, WatchedBytes, CodeForLength;
      var code := CodeForLength(bytes);
      forall length: Code
        ensures code == Some(length) <==> WatchedBytes(length) == bytes
        ensures code.Some? <==> bytes == 1 || bytes == 2 || bytes == 4 || bytes == 8
      {
        CodeExactly(bytes, length);
      }
      CodeExactly(bytes, 0);
      if code.None? || slot > 3 || condition > 3 {
        return Err(InvalidParameter);
      }
      Program(thread, slot, address, condition, code.value);
      return Ok(());
    }

    method Program(thread: nat, slot: Slot, address: bv64, condition: Code, length: Code)
      requires Valid()
      modifies this`contexts, this`banks
      ensures Valid()
      ensures banks == old(banks)[thread := old(BankOf(thread)).Put(slot, Breakpoint(true, condition, length))]
      ensures forall s: Slot :: ThreadContext(thread).Address(s) ==
                                if s == slot then address else old(ThreadContext(thread)).Address(s)
      ensures forall t | t != thread :: ThreadContext(t) == old(ThreadContext(t))
    {
      hide Pack, Programmed, Bank.Put, Context.Address;
      var context := ThreadContext(thread);
      assert context.dr7 == Pack(BankOf(thread)) by { NothingPacksToZero(); }
      ProgrammedRefines(context, BankOf(thread), slot, address, condition, length);
      Store(thread, Programmed(context, slot, address, condition, length),
            BankOf(thread).Put(slot, Breakpoint(true, condition, length)));
    }

    method Store(thread: nat, context: Context, ghost bank: Bank)
      requires Valid() && context.dr7 == Pack(bank)
      modifies this`contexts, this`banks
      ensures Valid()
      ensures contexts == old(contexts)[thread := context] && banks == old(banks)[thread := bank]
    {
      hide Pack;
      contexts, banks := contexts[thread := context], banks[thread := bank];
    }

    method ClearHardwareBreakpoint(thread: nat, slot: nat) returns (r: Result<(), Error>)
      requires Valid()
      modifies this`contexts, this`banks
      ensures Valid()
      ensures r.Ok? <==> slot <= 3
      ensures r.Err? ==> r.error == InvalidParameter && banks == old(banks) && contexts == old(contexts)
      ensures r.Ok? ==>
                && banks == old(banks)[thread := old(BankOf(thread)).Put(slot, CLEARED)]
                && forall s: Slot :: ThreadContext(thread).Address(s) == old(ThreadContext(thread)).Address(s)
      ensures forall t | t != thread :: ThreadContext(t) == old(ThreadContext(t))
    {
      hide Pack, Cleared, Bank.Put, Context.Address;
      if slot > 3 {
        return Err(InvalidParameter);
      }
      var context := ThreadContext(thread);
      assert context.dr7 == Pack(BankOf(thread)) by { NothingPacksToZero(); }
      ClearedRefines(context, BankOf(thread), slot);
      Store(thread, Cleared(context, slot), BankOf(thread).Put(slot, CLEARED));
      return Ok(());
    }

    lemma NothingPacksToZero()
      ensures Pack(NO_BREAKPOINTS) == 0
    {
    }

    /** What a guest reads out of a thread's DR7 is what was last asked for. */
    method ReadBreakpoint(thread: nat, slot: Slot) returns (enabled: bool, condition: bv64, length: bv64)
      requires Valid()
      ensures enabled == BankOf(thread).Get(slot).enabled
      ensures condition == BankOf(thread).Get(slot).condition && length == BankOf(thread).Get(slot).length
    {
      hide Pack, IsEnabled, Condition, LengthCode;
      var dr7 := ThreadContext(thread).dr7;
      assert dr7 == Pack(BankOf(thread)) by { NothingPacksToZero(); }
      ReadsBack(BankOf(thread), slot);
      return IsEnabled(dr7, slot), Condition(dr7, slot), LengthCode(dr7, slot);
    }

    method Attach(pid: nat) returns (r: Result<nat, Error>)
      requires Valid() && nextHandle <= LAST_HANDLE
      modifies this`attached, this`debugPort, this`debugObject, this`nextHandle
      ensures Valid() && nextHandle <= LAST_HANDLE
      ensures r == if pid != processId then Err(ProcessNotFound)
                   else if old(attached) then Err(AlreadyAttached)
                   else Ok(old(nextHandle))
      ensures r.Ok? ==> attached && debugObject == Some(r.value) && debugPort == ATTACHED_PORT
      ensures r.Ok? ==> nextHandle == if r.value + 4 <= LAST_HANDLE then r.value + 4 else LAST_HANDLE
      ensures r.Err? ==> attached == old(attached) && debugObject == old(debugObject) && nextHandle == old(nextHandle)
    {
      if pid != processId {
        return Err(ProcessNotFound);
      }
      if attached {
        return Err(AlreadyAttached);
      }
      var handle := nextHandle;
      nextHandle := if nextHandle + 4 <= LAST_HANDLE then nextHandle + 4 else LAST_HANDLE;
      debugObject, debugPort, attached := Some(handle), ATTACHED_PORT, true;
      return Ok(handle);
    }

    method Detach(pid: nat) returns (r: Result<(), Error>)
      requires Valid()
      modifies this`attached, this`debugPort, this`debugObject
      ensures Valid()
      ensures r == if !old(attached) then Err(NotAttached)
                   else if pid != processId then Err(ProcessNotFound) else Ok(())
      ensures r.Ok? ==> !attached && debugObject == None && debugPort == DETACHED_PORT
      ensures r.Err? ==> attached == old(attached) && debugObject == old(debugObject) && debugPort == old(debugPort)
    {
      if !attached {
        return Err(NotAttached);
      }
      if pid != processId {
        return Err(ProcessNotFound);
      }
      attached, debugPort, debugObject := false, DETACHED_PORT, None;
      return Ok(());
    }
  }
}
