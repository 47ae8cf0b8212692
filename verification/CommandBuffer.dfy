/** The command buffer that reads back the registers of a sub-system: how it is emitted, and how
    the instruction decoder walks it. Words are 32-bit, addresses 64-bit. */
module CommandBuffer {

  import opened Common

  const WORD := 0x1_0000_0000
  const LONG := 0x1_0000_0000_0000_0000

  /** SLOT_SIZE_CMDBUF in words. */
  const SLOT_WORDS := 2048
  const HW_ID_1_0_C := 0x43421001
  const SUB_MOD_MAX := 10

  // ---------------------------------------------------------------- instructions

  /** What _dbg_log_instr recognises, with the fields it prints. */
  datatype Instruction =
    | Wreg(fix: bool, length: int, reg: int)
    | End
    | Nop
    | Rreg(fix: bool, length: int, reg: int)
    | Jmp(rdy: bool, ie: bool)
    | Stall(im: bool, mask: int)
    | Clrint(kind: int, reg: int)
    | M2m
    | Mset
    | M2mp
    | Unknown

  /** The branch ladder of _dbg_log_instr. */
  function Decode(instr: int): Instruction
    requires 0 <= instr < WORD
  {
    var opcode := instr / 0x800_0000;
    var bit26, bit25 := instr / 0x400_0000 % 2 == 1, instr / 0x200_0000 % 2 == 1;
    var length, low := instr / 0x1_0000 % 1024, instr % 0x1_0000;
    if opcode == 0x01 then Wreg(bit26, length, low)
    else if opcode == 0x02 then End
    else if opcode == 0x03 then Nop
    else if opcode == 0x16 then Rreg(bit26, length, low)
    else if opcode == 0x19 then Jmp(bit26, bit25)
    else if opcode == 0x09 then Stall(bit26, low)
    else if opcode == 0x1a then Clrint(instr / 0x200_0000 % 4, low)
    else if opcode == 0x1b then M2m
    else if opcode == 0x1c then Mset
    else if opcode == 0x1d then M2mp
    else Unknown
  }

  /** The size in words that it reports. */
  function Size(i: Instruction): (n: int)
    ensures i.Wreg? && 0 <= i.length ==> i.length + 1 <= n <= i.length + 2 && n % 2 == 0
    ensures !i.Wreg? ==> 1 <= n <= 6
  {
    match i
    case Wreg(_, length, _) => (length + 2) / 2 * 2
    case Rreg(_, _, _) => 4
    case Jmp(_, _) => 4
    case Mset => 4
    case M2m => 6
    case M2mp => 6
    case Unknown => 1
    case _ => 2
  }

  /** Every instruction word, bit field by bit field: five bits of opcode, bit 26, bits 25..16 and bits
      15..0, with what is recognised and how many words the instruction has. */
  lemma EveryOpcode(opcode: int, bit26: int, mid: int, low: int)
    requires 0 <= opcode < 32 && 0 <= bit26 < 2 && 0 <= mid < 1024 && 0 <= low < 0x1_0000
    ensures var w := opcode * 0x800_0000 + bit26 * 0x400_0000 + mid * 0x1_0000 + low;
            && 0 <= w < WORD
            && (opcode == 0x01 ==> Decode(w) == Wreg(bit26 == 1, mid, low) && Size(Decode(w)) == mid + 2 - mid % 2)
            && (opcode == 0x02 ==> Decode(w) == End && Size(Decode(w)) == 2)
            && (opcode == 0x03 ==> Decode(w) == Nop && Size(Decode(w)) == 2)
            && (opcode == 0x09 ==> Decode(w) == Stall(bit26 == 1, low) && Size(Decode(w)) == 2)
            && (opcode == 0x16 ==> Decode(w) == Rreg(bit26 == 1, mid, low) && Size(Decode(w)) == 4)
            && (opcode == 0x19 ==> Decode(w) == Jmp(bit26 == 1, mid >= 512) && Size(Decode(w)) == 4)
            && (opcode == 0x1a ==> Decode(w) == Clrint(bit26 * 2 + mid / 512, low) && Size(Decode(w)) == 2)
            && (opcode == 0x1b ==> Decode(w) == M2m && Size(Decode(w)) == 6)
            && (opcode == 0x1c ==> Decode(w) == Mset && Size(Decode(w)) == 4)
            && (opcode == 0x1d ==> Decode(w) == M2mp && Size(Decode(w)) == 6)
            && (opcode !in {0x01, 0x02, 0x03, 0x09, 0x16, 0x19, 0x1a, 0x1b, 0x1c, 0x1d} ==>
                  Decode(w) == Unknown && Size(Decode(w)) == 1)
  {
    var w := opcode * 0x800_0000 + bit26 * 0x400_0000 + mid * 0x1_0000 + low;
    Divides(w, 0x800_0000, opcode, bit26 * 0x400_0000 + mid * 0x1_0000 + low);
    Divides(w, 0x400_0000, opcode * 2 + bit26, mid * 0x1_0000 + low);
    Divides(opcode * 2 + bit26, 2, opcode, bit26);
    Divides(w, 0x200_0000, opcode * 4 + bit26 * 2 + mid / 512, mid % 512 * 0x1_0000 + low);
    Divides(opcode * 4 + bit26 * 2 + mid / 512, 2, opcode * 2 + bit26, mid / 512);
    Divides(opcode * 4 + bit26 * 2 + mid / 512, 4, opcode, bit26 * 2 + mid / 512);
    Divides(w, 0x1_0000, opcode * 2048 + bit26 * 1024 + mid, low);
    Divides(opcode * 2048 + bit26 * 1024 + mid, 1024, opcode * 2 + bit26, mid);
  }

  predicate Words(s: seq<int>) {
    forall i | 0 <= i < |s| :: 0 <= s[i] < WORD
  }

  lemma SizePositive(instr: int)
    requires 0 <= instr < WORD
    ensures 1 <= Size(Decode(instr))
  {
  }

  /** The positions at which the walk of _dbg_log_cmdbuf decodes an instruction, from i on. */
  function Visits(s: seq<int>, i: int): seq<int>
    requires 0 <= i && Words(s)
    decreases |s| - i
  {
    if |s| <= i then []
    else
      SizePositive(s[i]);
      [i] + Visits(s, i + Size(Decode(s[i])))
  }

  /** _dbg_log_cmdbuf: i runs over all words, instr over the instructions. */
  method LogCmdbuf(s: seq<int>) returns (visited: seq<int>)
    requires Words(s)
    ensures visited == Visits(s, 0)
  {
    visited := [];
    var instr := 0;
    for i := 0 to |s|
      invariant i <= instr && visited + Visits(s, instr) == Visits(s, 0)
    {
      if i == instr {
        SizePositive(s[i]);
        visited := visited + [i];
        assert Visits(s, i) == [i] + Visits(s, i + Size(Decode(s[i])));
        instr := instr + Size(Decode(s[i]));
      }
    }
  }

  /** The words of some commands, one after the other. */
  function Concat(commands: seq<seq<int>>): seq<int> {
    if commands == [] then [] else commands[0] + Concat(commands[1..])
  }

  /** Where they begin, from i on. */
  function Starts(commands: seq<seq<int>>, i: int): (at: seq<int>)
    ensures |at| == |commands|
  {
    if commands == [] then [] else [i] + Starts(commands[1..], i + |commands[0]|)
  }

  /** As long as its first word says. */
  predicate IsCommand(c: seq<int>) {
    c != [] && Words(c) && Size(Decode(c[0])) == |c|
  }

  /** In every buffer of commands of whatever kind, each as long as its first word says, the walk
      decodes exactly the first word of each. */
  lemma {:induction false} LandsOnCommands(s: seq<int>, commands: seq<seq<int>>, i: int)
    requires 0 <= i <= |s| && Words(s) && s[i..] == Concat(commands)
    requires forall k | 0 <= k < |commands| :: IsCommand(commands[k])
    ensures Visits(s, i) == Starts(commands, i)
    decreases |commands|
  {
    hide Size, Decode;
    if commands != [] {
      assert IsCommand(commands[0]);
      assert s[i] == s[i..][0] == commands[0][0];
      assert s[i + |commands[0]|..] == s[i..][|commands[0]|..] == Concat(commands[1..]);
      LandsOnCommands(s, commands[1..], i + |commands[0]|);
    }
  }

  // ---------------------------------------------------------------- one read command

  /** Read `length` registers from byte offset `reg` on, into memory at `address`. */
  datatype Read = Read(length: int, reg: int, address: int)

  predicate ValidRead(r: Read) {
    0 <= r.length && 0 <= r.reg < 0x1_0000 && 0 <= r.address < LONG
  }

  /** VCMD_READ_CMD. The fields of the first word are disjoint, so `|` is `+`. */
  function Encode(r: Read): seq<int>
    requires ValidRead(r)
  {
    [0x16 * 0x800_0000 + r.length % 1024 * 0x1_0000 + r.reg, r.address % WORD, r.address / WORD, 0]
  }

  function EndCommand(): seq<int> {
    [0x02 * 0x800_0000, 0]
  }

  lemma ReadDecodes(r: Read)
    requires ValidRead(r)
    ensures Words(Encode(r)) && Decode(Encode(r)[0]) == Rreg(false, r.length % 1024, r.reg)
    ensures Encode(r)[1] + Encode(r)[2] * WORD == r.address && |Encode(r)| == 4 && Encode(r)[3] == 0
  {
  }

  lemma EndDecodes()
    ensures Words(EndCommand()) && Decode(EndCommand()[0]) == End && |EndCommand()| == 2 && EndCommand()[1] == 0
  {
  }

  // ---------------------------------------------------------------- the whole buffer

  function EncodeAll(rs: seq<Read>): seq<int>
    requires forall i | 0 <= i < |rs| :: ValidRead(rs[i])
  {
    if rs == [] then [] else EncodeAll(rs[..|rs| - 1]) + Encode(rs[|rs| - 1])
  }

  /** The read commands that a walk from position i on comes across, up to END: what the decoder
      makes of the length and offset fields, and the address words. */
  function Parse(s: seq<int>, i: int): seq<Read>
    requires 0 <= i && Words(s)
    decreases |s| - i
  {
    if |s| <= i then []
    else
      var d := Decode(s[i]);
      SizePositive(s[i]);
      match d
      case End => []
      case Rreg(_, length, reg) =>
        if |s| < i + 4 then [] else [Read(length, reg, s[i + 1] + s[i + 2] * WORD)] + Parse(s, i + 4)
      case _ => Parse(s, i + Size(d))
  }

  /** The command with the length that fits its 10-bit field. */
  function Cut(r: Read): Read {
    r.(length := r.length % 1024)
  }

  function CutAll(rs: seq<Read>): (c: seq<Read>)
    ensures |c| == |rs| && forall i | 0 <= i < |rs| :: c[i] == Cut(rs[i])
  {
    seq(|rs|, i requires 0 <= i < |rs| => Cut(rs[i]))
  }

  /** Command k is found at word 4 * k. */
  lemma {:induction false} WordsAt(rs: seq<Read>, k: int)
    requires forall i | 0 <= i < |rs| :: ValidRead(rs[i])
    ensures |EncodeAll(rs)| == 4 * |rs| && Words(EncodeAll(rs))
    ensures 0 <= k < |rs| ==>
              var s, c := EncodeAll(rs), Encode(rs[k]);
              s[4 * k] == c[0] && s[4 * k + 1] == c[1] && s[4 * k + 2] == c[2] && s[4 * k + 3] == c[3]
  {
    hide Encode;
    if rs != [] {
      WordsAt(rs[..|rs| - 1], k);
      EncodeFour(rs[|rs| - 1]);
      assert 0 <= k < |rs| - 1 ==> rs[..|rs| - 1][k] == rs[k];
    }
  }

  lemma EncodeFour(r: Read)
    requires ValidRead(r)
    ensures |Encode(r)| == 4 && Words(Encode(r))
  {
  }

  /** The emitted buffer. */
  function Buffer(rs: seq<Read>): seq<int>
    requires forall i | 0 <= i < |rs| :: ValidRead(rs[i])
  {
    EncodeAll(rs) + EndCommand()
  }

  lemma At(rs: seq<Read>, k: int)
    requires forall i | 0 <= i < |rs| :: ValidRead(rs[i])
    requires 0 <= k <= |rs|
    ensures var s := Buffer(rs);
            && |s| == 4 * |rs| + 2 && Words(s)
            && (k < |rs| ==>
                  && Decode(s[4 * k]) == Rreg(false, rs[k].length % 1024, rs[k].reg)
                  && s[4 * k + 1] + s[4 * k + 2] * WORD == rs[k].address)
            && (k == |rs| ==> Decode(s[4 * k]) == End)
  {
    WordsAt(rs, k);
    EndDecodes();
    if k < |rs| {
      ReadDecodes(rs[k]);
      assert Buffer(rs)[4 * k] == EncodeAll(rs)[4 * k];
    }
  }

  lemma WalkWord(s: seq<int>, i: int, d: Instruction)
    requires Words(s) && 0 <= i < |s| && Decode(s[i]) == d
    ensures d.Rreg? ==> Visits(s, i) == [i] + Visits(s, i + 4)
    ensures d.Rreg? && i + 4 <= |s| ==>
              Parse(s, i) == [Read(d.length, d.reg, s[i + 1] + s[i + 2] * WORD)] + Parse(s, i + 4)
    ensures d.End? && i + 2 == |s| ==> Visits(s, i) == [i] && Parse(s, i) == []
  {
  }

  lemma WalkStep(rs: seq<Read>, k: int)
    requires forall i | 0 <= i < |rs| :: ValidRead(rs[i])
    requires 0 <= k <= |rs|
    ensures |Buffer(rs)| == 4 * |rs| + 2 && Words(Buffer(rs))
    ensures Visits(Buffer(rs), 4 * k) == [4 * k] + if k < |rs| then Visits(Buffer(rs), 4 * (k + 1)) else []
    ensures Parse(Buffer(rs), 4 * k) == if k < |rs| then [Cut(rs[k])] + Parse(Buffer(rs), 4 * (k + 1)) else []
  {
    hide Visits, Parse, Decode, Words, Buffer, ValidRead;
    At(rs, k);
    WalkWord(Buffer(rs), 4 * k, if k < |rs| then Rreg(false, rs[k].length % 1024, rs[k].reg) else End);
  }

  /** The walk lands on every emitted command in turn and on END, nowhere else, and ends exactly
      at the end of the buffer; and it reads back the commands. */
  lemma {:induction false} WalkFrom(rs: seq<Read>, k: int)
    requires forall i | 0 <= i < |rs| :: ValidRead(rs[i])
    requires 0 <= k <= |rs|
    ensures |Buffer(rs)| == 4 * |rs| + 2 && Words(Buffer(rs))
    ensures Visits(Buffer(rs), 4 * k) == seq(|rs| - k + 1, i => 4 * (k + i))
    ensures Parse(Buffer(rs), 4 * k) == CutAll(rs)[k..]
    decreases |rs| - k
  {
    hide Visits, Parse, Words, Buffer, ValidRead, Cut, Decode, Size, EncodeAll;
    WalkStep(rs, k);
    if k < |rs| {
      WalkFrom(rs, k + 1);
    }
  }

  /** Emit and decode are inverse exactly when every length fits its field. */
  lemma RoundTrip(rs: seq<Read>)
    requires forall i | 0 <= i < |rs| :: ValidRead(rs[i])
    ensures Words(Buffer(rs)) && Visits(Buffer(rs), 0) == seq(|rs| + 1, i => 4 * i)
    ensures Parse(Buffer(rs), 0) == rs <==> forall i | 0 <= i < |rs| :: rs[i].length <= 1023
  {
    WalkFrom(rs, 0);
    assert CutAll(rs)[0..] == CutAll(rs);
    if i :| 0 <= i < |rs| && 1023 < rs[i].length {
      assert CutAll(rs)[i] != rs[i];
    }
    if forall i | 0 <= i < |rs| :: rs[i].length <= 1023 {
      assert CutAll(rs) == rs;
    }
  }

  // ---------------------------------------------------------------- the driver

  /** reg_off, rreg_id and rreg_num of a sub-module: 16-bit values, 0xffff for none. */
  datatype Module = Module(regOff: int, rregId: int, rregNum: int)

  predicate ValidModule(m: Module) {
    0 <= m.regOff < 0x1_0000 && 0 <= m.rregId < 0x1_0000 && 0 <= m.rregNum < 0x1_0000
  }

  predicate IsRead(m: Module) {
    m.regOff != 0xFFFF && m.rregId != 0xFFFF
  }

  /** The command for one sub-module; the offset is computed in 16 bits. */
  function ModuleRead(m: Module, regBa: int): (r: Read)
    requires ValidModule(m) && 0 <= regBa < LONG
    ensures ValidRead(r)
  {
    var reg := (m.regOff + m.rregId * 4) % 0x1_0000;
    Read(m.rregNum, reg, (regBa + reg) % LONG)
  }

  /** The commands for the first n sub-modules, after those in `first`. */
  function ModuleReads(first: seq<Read>, mods: seq<Module>, n: int, regBa: int): (rs: seq<Read>)
    requires 0 <= n <= |mods| && 0 <= regBa < LONG
    requires forall i | 0 <= i < |mods| :: ValidModule(mods[i])
    requires forall i | 0 <= i < |first| :: ValidRead(first[i])
    ensures forall i | 0 <= i < |rs| :: ValidRead(rs[i])
    ensures |rs| <= |first| + n && first <= rs
  {
    if n == 0 then first
    else
      var rs := ModuleReads(first, mods, n - 1, regBa);
      if IsRead(mods[n - 1]) then rs + [ModuleRead(mods[n - 1], regBa)] else rs
  }

  /** All reads: newer hardware also reports the executing command buffer first, and the command
      processor's own registers last. */
  function AllReads(version: int, mods: seq<Module>, regBa: int): (rs: seq<Read>)
    requires 0 <= regBa < LONG
    requires forall i | 0 <= i < |mods| :: ValidModule(mods[i])
    ensures forall i | 0 <= i < |rs| :: ValidRead(rs[i])
    ensures |rs| <= |mods| + 2
  {
    if version > HW_ID_1_0_C then ModuleReads([Read(1, 26 * 4, 26 * 4)], mods, |mods|, regBa) + [Read(27, 0, 0)]
    else ModuleReads([], mods, |mods|, regBa)
  }

  /** Memory is as before, but for the commands rs from `base` up to p. */
  ghost predicate Emitted(now: seq<int>, before: seq<int>, base: int, rs: seq<Read>, p: int) {
    && (forall i | 0 <= i < |rs| :: ValidRead(rs[i]))
    && 0 <= base && p == base + 4 * |rs| == base + |EncodeAll(rs)| && |now| == |before| && p <= |before|
    && now == before[..base] + EncodeAll(rs) + before[p..]
  }

  /** VCMD_READ_CMD at position p. */
  method EmitRead(mem: array<int>, p: int, r: Read, ghost before: seq<int>, ghost base: int, ghost rs: seq<Read>)
    returns (q: int)
    requires ValidRead(r) && Emitted(mem[..], before, base, rs, p) && p + 4 <= mem.Length
    modifies mem
    ensures Emitted(mem[..], before, base, rs + [r], q) && q == p + 4
  {
    hide Encode, EncodeAll, ValidRead;
    mem[p] := 0x16 * 0x800_0000 + r.length % 1024 * 0x1_0000 + r.reg;
    mem[p + 1] := r.address % WORD;
    mem[p + 2] := r.address / WORD;
    mem[p + 3] := 0;
    q := p + 4;
    OneMore(rs, r);
    Spliced(before, base, EncodeAll(rs), Encode(r), mem[..]);
  }

  lemma OneMore(rs: seq<Read>, r: Read)
    requires ValidRead(r) && forall i | 0 <= i < |rs| :: ValidRead(rs[i])
    ensures forall i | 0 <= i < |rs + [r]| :: ValidRead((rs + [r])[i])
    ensures EncodeAll(rs + [r]) == EncodeAll(rs) + Encode(r)
    ensures Encode(r) == [0x16 * 0x800_0000 + r.length % 1024 * 0x1_0000 + r.reg, r.address % WORD, r.address / WORD, 0]
  {
  }

  /** Words c put right behind the words b, which are at `base`. */
  lemma Spliced(before: seq<int>, base: int, b: seq<int>, c: seq<int>, now: seq<int>)
    requires 0 <= base && base + |b| + |c| <= |before| == |now|
    requires now[..base + |b|] == before[..base] + b
    requires now[base + |b|..base + |b| + |c|] == c
    requires now[base + |b| + |c|..] == before[base + |b| + |c|..]
    ensures now == before[..base] + (b + c) + before[base + |b| + |c|..]
  {
  }

  /** The END command, and the size of the whole buffer in bytes. */
  method EmitEnd(mem: array<int>, p: int, base: int, ghost before: seq<int>, ghost rs: seq<Read>) returns (size: int)
    requires Emitted(mem[..], before, base, rs, p) && p + 2 <= mem.Length
    modifies mem
    ensures Emitted(old(mem[..]), before, base, rs, p) && size == 4 * |Buffer(rs)| == 4 * (4 * |rs| + 2)
    ensures mem[..] == before[..base] + Buffer(rs) + before[base + |Buffer(rs)|..]
  {
    hide EncodeAll, ValidRead;
    mem[p] := 0x02 * 0x800_0000;
    mem[p + 1] := 0;
    size := 4 * (p + 2 - base);
    Spliced(before, base, EncodeAll(rs), EndCommand(), mem[..]);
  }

  /** create_read_all_registers_cmdbuf for slot `id`: the buffer is put at the start of the slot,
      the slot has room for it, and nothing else in memory changes. */
  method CreateReadAllRegisters(mem: array<int>, id: int, version: int, mods: seq<Module>, regBa: int)
    returns (cmdbufSize: int)
    requires 0 <= id < 256 && mem.Length == 256 * SLOT_WORDS && 0 <= regBa < LONG
    requires |mods| == SUB_MOD_MAX && forall i | 0 <= i < |mods| :: ValidModule(mods[i])
    modifies mem
    ensures var b := Buffer(AllReads(version, mods, regBa)); var base := id * SLOT_WORDS;
            && cmdbufSize == 4 * |b| && |b| <= SLOT_WORDS
            && mem[..] == old(mem[..base]) + b + old(mem[base + |b|..])
  {
    hide Emitted, ModuleRead, ValidModule, IsRead, Buffer;
    var base := id * SLOT_WORDS;
    var p := base;
    ghost var before, rs := mem[..], [];
    NothingYet(before, base);
    if version > HW_ID_1_0_C {
      p := EmitRead(mem, p, Read(1, 26 * 4, 26 * 4), before, base, rs);
      rs := rs + [Read(1, 26 * 4, 26 * 4)];
      assert rs == [Read(1, 26 * 4, 26 * 4)];
    }
    ghost var first := rs;
    for i := 0 to SUB_MOD_MAX
      invariant rs == ModuleReads(first, mods, i, regBa) && p == base + 4 * |rs| && |rs| <= i + 1
      invariant Emitted(mem[..], before, base, rs, p)
    {
      if IsRead(mods[i]) {
        var r := ModuleRead(mods[i], regBa);
        p := EmitRead(mem, p, r, before, base, rs);
        rs := rs + [r];
      }
    }
    if version > HW_ID_1_0_C {
      p := EmitRead(mem, p, Read(27, 0, 0), before, base, rs);
      rs := rs + [Read(27, 0, 0)];
    }
    cmdbufSize := EmitEnd(mem, p, base, before, rs);
  }

  lemma NothingYet(before: seq<int>, base: int)
    requires 0 <= base <= |before|
    ensures Emitted(before, before, base, [], base)
  {
  }

  /** How many of the first n sub-modules are read. */
  function Before(mods: seq<Module>, n: int): (k: int)
    requires 0 <= n <= |mods|
    ensures 0 <= k <= n
  {
    if n == 0 then 0 else Before(mods, n - 1) + if IsRead(mods[n - 1]) then 1 else 0
  }

  /** Every sub-module that has both numbers is read once, at the place given by those before it,
      and nothing else is read in between. */
  lemma {:induction false} EveryModuleOnce(first: seq<Read>, mods: seq<Module>, n: int, regBa: int)
    requires 0 <= n <= |mods| && 0 <= regBa < LONG
    requires forall i | 0 <= i < |mods| :: ValidModule(mods[i])
    requires forall i | 0 <= i < |first| :: ValidRead(first[i])
    ensures |ModuleReads(first, mods, n, regBa)| == |first| + Before(mods, n)
    ensures forall i | 0 <= i < n && mods[i].regOff != 0xFFFF && mods[i].rregId != 0xFFFF ::
              var rs := ModuleReads(first, mods, n, regBa);
              |first| + Before(mods, i) < |rs| && Reads(rs[|first| + Before(mods, i)], mods[i], regBa)
  {
    hide ModuleRead, Reads;
    if n > 0 {
      EveryModuleOnce(first, mods, n - 1, regBa);
      ReadsModule(mods[n - 1], regBa);
    }
  }

  /** The command reads the registers that the sub-module reports, from the byte offset of the first
      one, to the place of that offset in the register memory. */
  ghost predicate Reads(r: Read, m: Module, regBa: int) {
    && r.length == m.rregNum && 0 <= r.reg < 0x1_0000 && (r.reg - (m.regOff + 4 * m.rregId)) % 0x1_0000 == 0
    && 0 <= r.address < LONG && (r.address - (regBa + r.reg)) % LONG == 0
  }

  lemma ReadsModule(m: Module, regBa: int)
    requires ValidModule(m) && 0 <= regBa < LONG
    ensures Reads(ModuleRead(m, regBa), m, regBa)
  {
    var x, y := m.regOff + m.rregId * 4, regBa + ModuleRead(m, regBa).reg;
    Divides(x % 0x1_0000 - x, 0x1_0000, -(x / 0x1_0000), 0);
    Divides(y % LONG - y, LONG, -(y / LONG), 0);
  }

  /** The number of sub-modules that are read is the number of those that have both numbers. */
  lemma {:induction false} BeforeIsCount(mods: seq<Module>, n: int)
    requires 0 <= n <= |mods|
    ensures Before(mods, n) == |set i | 0 <= i < n && mods[i].regOff != 0xFFFF && mods[i].rregId != 0xFFFF|
  {
    var s := set i | 0 <= i < n && mods[i].regOff != 0xFFFF && mods[i].rregId != 0xFFFF;
    if n == 0 {
      assert s == {};
    } else {
      BeforeIsCount(mods, n - 1);
      var less := set i | 0 <= i < n - 1 && mods[i].regOff != 0xFFFF && mods[i].rregId != 0xFFFF;
      assert s == if mods[n - 1].regOff != 0xFFFF && mods[n - 1].rregId != 0xFFFF then less + {n - 1} else less;
    }
  }

  /** Hardware newer than 1.0.c also reports the executing command buffer, register 26, first, and the
      27 registers of the command processor last; both go to the start of memory. */
  lemma FirstAndLast(version: int, mods: seq<Module>, regBa: int)
    requires 0 <= regBa < LONG && forall i | 0 <= i < |mods| :: ValidModule(mods[i])
    ensures var rs := AllReads(version, mods, regBa);
            if version > 0x4342_1001 then
              && |rs| == Before(mods, |mods|) + 2 && rs[0] == Read(1, 104, 104) && rs[|rs| - 1] == Read(27, 0, 0)
              && rs[1..|rs| - 1] == ModuleReads([Read(1, 104, 104)], mods, |mods|, regBa)[1..]
            else rs == ModuleReads([], mods, |mods|, regBa)
  {
    var first := if version > HW_ID_1_0_C then [Read(1, 26 * 4, 26 * 4)] else [];
    EveryModuleOnce(first, mods, |mods|, regBa);
  }

  /** The whole path: for every sub-system configuration whose lengths fit, decoding what was
      emitted gives back the reads it asks for, in order. */
  lemma EmittedReadsComeBack(version: int, mods: seq<Module>, regBa: int)
    requires 0 <= regBa < LONG && |mods| == SUB_MOD_MAX
    requires forall i | 0 <= i < |mods| :: ValidModule(mods[i]) && mods[i].rregNum <= 1023
    ensures var rs := AllReads(version, mods, regBa); Words(Buffer(rs)) && Parse(Buffer(rs), 0) == rs
  {
    RoundTrip(AllReads(version, mods, regBa));
    var first := if version > HW_ID_1_0_C then [Read(1, 26 * 4, 26 * 4)] else [];
    ShortReads(first, mods, |mods|, regBa);
  }

  lemma {:induction false} ShortReads(first: seq<Read>, mods: seq<Module>, n: int, regBa: int)
    requires 0 <= n <= |mods| && 0 <= regBa < LONG
    requires forall i | 0 <= i < |mods| :: ValidModule(mods[i]) && mods[i].rregNum <= 1023
    requires forall i | 0 <= i < |first| :: ValidRead(first[i]) && first[i].length <= 1023
    ensures forall i | 0 <= i < |ModuleReads(first, mods, n, regBa)| ::
              ModuleReads(first, mods, n, regBa)[i].length <= 1023
  {
    if n > 0 {
      ShortReads(first, mods, n - 1, regBa);
    }
  }
}
