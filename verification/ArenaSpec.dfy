/** The arena of u_arena.c: blocks and their size headers in one buffer. */
module ArenaSpec {
  import opened Wrappers
  import opened SStreamSpec
  import opened Endian
  import Cyclic

  // The alignments U_memalign allows.
  type Alignment = a: nat | a == 1 || a == 4 || a == 8 || a == 16 || a == 32 || a == 64 witness 1

  // Offsets into the buffer.
  datatype Block = Block(header: nat, start: nat, size: nat, alignment: Alignment)

  // `base` is the address of the buffer, `size` the end of the last block, `mem` the buffer.
  datatype Arena = Arena(base: nat, size: nat, mem: Text, blocks: seq<Block>)

  // The least multiple of the alignment that is not below num.
  function Memalign(num: nat, algn: Alignment): (r: nat)
    ensures num <= r < num + algn && r % algn == 0
  {
    var up := num + (algn - 1);
    Cyclic.ModuloIs(up - up % algn, algn, up / algn, 0);
    up - up % algn
  }

  // Where the next header goes.
  function HeaderAt(a: Arena): nat {
    Memalign(a.base + a.size, 8) - a.base
  }

  // Where the next block goes.
  function StartAt(a: Arena, alignment: Alignment): nat {
    Memalign(a.base + HeaderAt(a) + 8, alignment) - a.base
  }

  // The first space test: room for the block, its header and 24 more bytes.
  predicate HasSlack(a: Arena, size: nat) {
    a.size + 32 + size <= |a.mem|
  }

  // The second space test: more bytes than asked for between block and end. A negative difference is a
  // large unsigned number, so it passes.
  predicate EndCheck(a: Arena, size: nat, start: nat) {
    start > |a.mem| || |a.mem| - start > size
  }

  function Patch(mem: Text, at: nat, b: Text): (m: Text)
    requires at + |b| <= |mem|
    ensures |m| == |mem|
  {
    mem[..at] + b + mem[at + |b|..]
  }

  lemma HeaderFits(a: Arena, size: nat)
    requires HasSlack(a, size)
    ensures a.size <= HeaderAt(a) && HeaderAt(a) + 8 <= |a.mem| - size
  {
  }

  // U_AllocArena: the arena afterwards and the offset of the block, if one is returned.
  function Alloc(a: Arena, size: nat, alignment: Alignment): (Arena, Option<nat>) {
    if size == 0 || !HasSlack(a, size) then (a, None)
    else
      HeaderFits(a, size);
      var header, start := HeaderAt(a), StartAt(a, alignment);
      var marked := a.(mem := Patch(a.mem, header, LittleEndian(size, 8)));
      if EndCheck(a, size, start)
      then (marked.(size := start + size, blocks := a.blocks + [Block(header, start, size, alignment)]), Some(start))
      else (marked, None)
  }

  // ----- the invariant -----

  function End(b: Block): nat { b.start + b.size }

  // The block is aligned, its size stands in the eight bytes of its header, and both lie below `limit`.
  predicate GoodBlock(base: nat, mem: Text, b: Block, limit: nat) {
    && (base + b.header) % 8 == 0 && (base + b.start) % b.alignment == 0
    && b.header + 8 <= b.start && 0 < b.size && End(b) <= limit <= |mem|
    && FromLittleEndian(mem[b.header..b.header + 8]) == b.size
  }

  predicate Ordered(blocks: seq<Block>) {
    forall i, j :: 0 <= i < j < |blocks| ==> End(blocks[i]) <= blocks[j].header
  }

  ghost predicate Inv(a: Arena) {
    && a.size <= |a.mem| < 0x8000_0000
    && Ordered(a.blocks)
    && forall i :: 0 <= i < |a.blocks| ==> GoodBlock(a.base, a.mem, a.blocks[i], a.size)
  }

  // The bytes of a block.
  function Contents(a: Arena, k: nat): Text
    requires k < |a.blocks| && End(a.blocks[k]) <= |a.mem|
  {
    a.mem[a.blocks[k].start..End(a.blocks[k])]
  }

  // A returned block lies inside the arena exactly when its aligned start does; then the end check has
  // left it at least one more byte.
  lemma InsideIffStartInside(a: Arena, size: nat, alignment: Alignment)
    requires Alloc(a, size, alignment).1.Some?
    ensures StartAt(a, alignment) + size <= |a.mem| <==> StartAt(a, alignment) <= |a.mem|
    ensures StartAt(a, alignment) <= |a.mem| ==> StartAt(a, alignment) + size < |a.mem|
  {
  }

  // Aligning is determined by the multiple it leads to.
  lemma MemalignIs(num: nat, algn: Alignment, r: nat)
    requires r % algn == 0 && num <= r < num + algn
    ensures Memalign(num, algn) == r
  {
    var m := Memalign(num, algn);
    var d := m / algn - r / algn;
    assert m == algn * (m / algn) && r == algn * (r / algn);
    assert algn * d == m - r;
    assert d >= 1 ==> algn * d >= algn;
    assert d <= -1 ==> algn * d <= 0 - algn;
  }

  // The headers are multiples of eight, so eight more bytes are the most an alignment of 16 can cost.
  lemma AlignmentCost(num: nat, alignment: Alignment)
    requires num % 8 == 0 && alignment <= 16
    ensures Memalign(num, alignment) <= num + 8
  {
    hide Memalign;
    SixteenCost(num);
    EightCosts(num);
  }

  lemma SixteenCost(num: nat)
    requires num % 8 == 0
    ensures Memalign(num, 16) <= num + 8
  {
    hide Memalign;
    MemalignIs(num, 16, if num % 16 == 0 then num else num + 8);
  }

  lemma EightCosts(num: nat)
    requires num % 8 == 0
    ensures Memalign(num, 1) == Memalign(num, 4) == Memalign(num, 8) == num
  {
    hide Memalign;
    MemalignIs(num, 1, num);
    MemalignIs(num, 4, num);
    MemalignIs(num, 8, num);
  }

  // Up to an alignment of 16 the slack of 32 bytes alone makes the end check succeed.
  lemma SlackSuffices(a: Arena, size: nat, alignment: Alignment)
    requires alignment <= 16 && size > 0
    ensures Alloc(a, size, alignment).1.Some? <==> HasSlack(a, size)
    ensures HasSlack(a, size) ==> StartAt(a, alignment) + size < |a.mem|
  {
    hide Memalign;
    AlignmentCost(a.base + HeaderAt(a) + 8, alignment);
  }

  lemma PatchOutside(mem: Text, at: nat, b: Text, from: nat, to: nat)
    requires at + |b| <= |mem| && from <= to <= |mem| && (to <= at || at + |b| <= from)
    ensures Patch(mem, at, b)[from..to] == mem[from..to]
  {
  }

  lemma PatchInside(mem: Text, at: nat, b: Text)
    requires at + |b| <= |mem|
    ensures Patch(mem, at, b)[at..at + |b|] == b
  {
  }

  // The next block is aligned and lies behind its header, which is filled in.
  lemma NewBlock(a: Arena, size: nat, alignment: Alignment)
    requires Inv(a) && 0 < size && HasSlack(a, size) && StartAt(a, alignment) + size <= |a.mem|
    ensures HeaderAt(a) + 8 <= |a.mem|
    ensures var mem := Patch(a.mem, HeaderAt(a), LittleEndian(size, 8));
            GoodBlock(a.base, mem, Block(HeaderAt(a), StartAt(a, alignment), size, alignment), StartAt(a, alignment) + size)
  {
    hide Memalign, LittleEndian, FromLittleEndian, Patch, Pow256;
    HeaderFits(a, size);
    PatchInside(a.mem, HeaderAt(a), LittleEndian(size, 8));
    LittleEndianValue(size, 8);
    Powers();
    Cyclic.ModuloIs(size, Pow256(8), 0, size);
  }

  // Writing the next header touches no block and no header below it.
  lemma HeaderWritten(a: Arena, size: nat, k: nat)
    requires Inv(a) && HasSlack(a, size) && k < |a.blocks| && HeaderAt(a) + 8 <= |a.mem|
    ensures var c, mem := a.blocks[k], Patch(a.mem, HeaderAt(a), LittleEndian(size, 8));
            && GoodBlock(a.base, mem, c, a.size) && End(c) <= a.size <= HeaderAt(a)
            && mem[c.start..End(c)] == Contents(a, k)
  {
    hide Memalign, LittleEndian, FromLittleEndian, Patch, HeaderAt;
    HeaderFits(a, size);
    var c, header, b := a.blocks[k], HeaderAt(a), LittleEndian(size, 8);
    PatchOutside(a.mem, header, b, c.header, c.header + 8);
    PatchOutside(a.mem, header, b, c.start, End(c));
  }

  lemma BlockBelow(base: nat, mem: Text, b: Block, limit: nat, higher: nat)
    requires GoodBlock(base, mem, b, limit) && limit <= higher <= |mem|
    ensures GoodBlock(base, mem, b, higher) && End(b) <= |mem|
  {
  }

  // Allocation keeps the invariant and every block allocated before, for all alignments up to 16 and for
  // the larger ones when the aligned start still lies inside.
  lemma AllocKeeps(a: Arena, size: nat, alignment: Alignment)
    requires Inv(a) && (alignment <= 16 || StartAt(a, alignment) <= |a.mem|)
    ensures var a' := Alloc(a, size, alignment).0;
            && Inv(a') && |a'.mem| == |a.mem| && a.blocks <= a'.blocks
            && forall k :: 0 <= k < |a.blocks| ==> Contents(a', k) == Contents(a, k)
  {
    hide Memalign, LittleEndian, Patch, HeaderAt, StartAt, GoodBlock;
    BlocksInside(a);
    if size > 0 && HasSlack(a, size) {
      HeaderFits(a, size);
      if alignment <= 16 {
        SlackSuffices(a, size, alignment);
      }
      var a' := Alloc(a, size, alignment).0;
      if EndCheck(a, size, StartAt(a, alignment)) {
        NewBlock(a, size, alignment);
        StartBehind(a, alignment);
      }
      forall k | 0 <= k < |a.blocks|
        ensures GoodBlock(a.base, a'.mem, a.blocks[k], a'.size) && End(a.blocks[k]) <= HeaderAt(a)
        ensures End(a.blocks[k]) <= |a'.mem| && Contents(a', k) == Contents(a, k)
      {
        HeaderWritten(a, size, k);
        BlockBelow(a.base, a'.mem, a.blocks[k], a.size, a'.size);
      }
    }
  }

  // The offset returned is that of a new block of the size and alignment asked for, behind all others; with
  // alignments up to 16 the block begins at most 24 bytes behind them.
  lemma BlockRecorded(a: Arena, size: nat, alignment: Alignment)
    ensures var (a', p) := Alloc(a, size, alignment);
            if p.Some? then
              && |a'.blocks| == |a.blocks| + 1 && a.blocks <= a'.blocks
              && var b := a'.blocks[|a.blocks|];
                 && b.start == p.value && b.size == size > 0 && b.alignment == alignment
                 && a.size + 8 <= p.value && a'.size == p.value + size && (alignment <= 16 ==> p.value <= a.size + 24)
            else a'.blocks == a.blocks && a'.size == a.size
  {
    hide Memalign, Patch;
    AlignmentCostOf(a, alignment);
  }

  lemma AlignmentCostOf(a: Arena, alignment: Alignment)
    ensures a.size + 8 <= StartAt(a, alignment) && (alignment <= 16 ==> StartAt(a, alignment) <= a.size + 24)
  {
    hide Memalign;
    if alignment <= 16 { AlignmentCost(a.base + HeaderAt(a) + 8, alignment); }
  }

  lemma BlocksInside(a: Arena)
    requires Inv(a)
    ensures forall k :: 0 <= k < |a.blocks| ==> End(a.blocks[k]) <= a.size <= |a.mem|
  {
    assert forall k :: 0 <= k < |a.blocks| ==> GoodBlock(a.base, a.mem, a.blocks[k], a.size);
  }

  lemma StartBehind(a: Arena, alignment: Alignment)
    ensures a.size <= HeaderAt(a) && HeaderAt(a) + 8 <= StartAt(a, alignment)
  {
  }

  // ----- runs -----

  // The owner of block k writes some bytes into it.
  function Write(a: Arena, k: nat, at: nat, b: Text): Arena {
    if k < |a.blocks| && at + |b| <= a.blocks[k].size && End(a.blocks[k]) <= |a.mem|
    then a.(mem := Patch(a.mem, a.blocks[k].start + at, b)) else a
  }

  lemma WriteKeeps(a: Arena, k: nat, at: nat, b: Text)
    requires Inv(a)
    ensures var a' := Write(a, k, at, b);
            && Inv(a') && |a'.mem| == |a.mem| && a'.blocks == a.blocks
            && forall j :: 0 <= j < |a.blocks| ==>
                 Contents(a', j) == if j == k && at + |b| <= a.blocks[k].size then Patch(Contents(a, k), at, b) else Contents(a, j)
  {
    hide FromLittleEndian;
    if k < |a.blocks| && at + |b| <= a.blocks[k].size {
      var p := a.blocks[k].start + at;
      forall j | 0 <= j < |a.blocks|
        ensures GoodBlock(a.base, Patch(a.mem, p, b), a.blocks[j], a.size)
        ensures j != k ==> Patch(a.mem, p, b)[a.blocks[j].start..End(a.blocks[j])] == Contents(a, j)
      {
        var c := a.blocks[j];
        if j < k { assert End(c) <= a.blocks[k].header; }
        if k < j { assert End(a.blocks[k]) <= c.header; }
        PatchOutside(a.mem, p, b, c.header, c.header + 8);
        if j != k { PatchOutside(a.mem, p, b, c.start, End(c)); }
      }
      assert Contents(Write(a, k, at, b), k) == Patch(Contents(a, k), at, b);
    }
  }

  datatype Op = Allocate(size: nat, alignment: Alignment) | Store(k: nat, at: nat, b: Text)

  function Exec(a: Arena, op: Op): Arena {
    match op
    case Allocate(size, alignment) => Alloc(a, size, alignment).0
    case Store(k, at, b) => Write(a, k, at, b)
  }

  function ExecAll(a: Arena, ops: seq<Op>): Arena
    decreases |ops|
  {
    if ops == [] then a else Exec(ExecAll(a, ops[..|ops| - 1]), ops[|ops| - 1])
  }

  // The condition an allocation must meet: the aligned start of its block lies inside the arena.
  predicate StartsInside(a: Arena, alignment: Alignment) {
    alignment <= 16 || StartAt(a, alignment) <= |a.mem|
  }

  predicate AllInside(a: Arena, ops: seq<Op>)
    decreases |ops|
  {
    ops == [] ||
    (var n := |ops| - 1;
     AllInside(a, ops[..n]) && (ops[n].Allocate? ==> StartsInside(ExecAll(a, ops[..n]), ops[n].alignment)))
  }

  // Alignments up to 16 always meet it.
  lemma {:induction false} SmallIsInside(a: Arena, ops: seq<Op>)
    requires forall i :: 0 <= i < |ops| ==> ops[i].Allocate? ==> ops[i].alignment <= 16
    ensures AllInside(a, ops)
    decreases |ops|
  {
    if ops != [] {
      SmallIsInside(a, ops[..|ops| - 1]);
    }
  }

  lemma {:induction false} RunKeeps(a: Arena, ops: seq<Op>)
    requires Inv(a) && AllInside(a, ops)
    ensures Inv(ExecAll(a, ops)) && |ExecAll(a, ops).mem| == |a.mem| && a.blocks <= ExecAll(a, ops).blocks
    decreases |ops|
  {
    hide Inv, Alloc, Write, StartAt;
    if ops != [] {
      var n := |ops| - 1;
      RunKeeps(a, ops[..n]);
      var m := ExecAll(a, ops[..n]);
      match ops[n] {
        case Allocate(size, alignment) => AllocKeeps(m, size, alignment);
        case Store(k, at, b) => WriteKeeps(m, k, at, b);
      }
    }
  }

  function Initial(base: nat, mem: Text): Arena { Arena(base, 0, mem, []) }

  // After any allocations and stores, the blocks with their headers are pairwise disjoint, aligned and
  // inside the arena, and each header holds the size of its block.
  lemma {:induction false} BlocksAreSeparate(base: nat, mem: Text, ops: seq<Op>, i: nat, j: nat)
    requires |mem| < 0x8000_0000 && AllInside(Initial(base, mem), ops)
    requires i < |ExecAll(Initial(base, mem), ops).blocks| && j < |ExecAll(Initial(base, mem), ops).blocks| && i != j
    ensures var a := ExecAll(Initial(base, mem), ops);
            var b, c := a.blocks[i], a.blocks[j];
            && (End(b) <= c.header || End(c) <= b.header)
            && b.header + 8 <= b.start && End(b) <= |a.mem| == |mem|
            && (base + b.header) % 8 == 0 && (base + b.start) % b.alignment == 0
            && FromLittleEndian(a.mem[b.header..b.header + 8]) == b.size
  {
    hide FromLittleEndian, ExecAll, AllInside;
    RunKeeps(Initial(base, mem), ops);
    RunBase(Initial(base, mem), ops);
    var a := ExecAll(Initial(base, mem), ops);
    assert GoodBlock(a.base, a.mem, a.blocks[i], a.size);
  }

  lemma {:induction false} RunBase(a: Arena, ops: seq<Op>)
    ensures ExecAll(a, ops).base == a.base
    decreases |ops|
  {
    hide Memalign, LittleEndian, Patch;
    if ops != [] {
      RunBase(a, ops[..|ops| - 1]);
    }
  }

  // What a block holds is what its owner stored last: nothing but a store to block k changes it.
  lemma {:induction false} OnlyOwnStores(a: Arena, ops: seq<Op>, k: nat)
    requires Inv(a) && AllInside(a, ops) && k < |a.blocks|
    requires forall i :: 0 <= i < |ops| ==> ops[i].Store? ==> ops[i].k != k
    ensures var a' := ExecAll(a, ops);
            k < |a'.blocks| && a'.blocks[k] == a.blocks[k] && End(a.blocks[k]) <= |a'.mem| && Contents(a', k) == Contents(a, k)
    decreases |ops|
  {
    hide Memalign, LittleEndian, FromLittleEndian, Patch, Alloc, Write, StartAt;
    if ops != [] {
      var n := |ops| - 1;
      OnlyOwnStores(a, ops[..n], k);
      RunKeeps(a, ops[..n]);
      var m := ExecAll(a, ops[..n]);
      match ops[n] {
        case Allocate(size, alignment) => AllocKeeps(m, size, alignment);
        case Store(j, at, b) => WriteKeeps(m, j, at, b);
      }
    }
  }

  // An alignment of 32 can cost more than the slack: although the strict test of the assertion holds as
  // well, the second block starts behind the end of the buffer.
  lemma SlackTooSmallFor32(base: nat, mem: Text)
    requires base > 0 && base % 64 == 0 && |mem| == 59
    ensures var a := ExecAll(Initial(base, mem), [Allocate(17, 1)]);
            a.size + 32 + 1 < |a.mem| && Alloc(a, 1, 32).1 == Some(64)
  {
    hide LittleEndian, Memalign;
    var op := Allocate(17, 1);
    var start := Initial(base, mem);
    assert [op][..0] == [];
    MemalignIs(base, 8, base);
    MemalignIs(base + 8, 1, base + 8);
    assert HeaderAt(start) == 0 && StartAt(start, 1) == 8;
    var a := Alloc(start, 17, 1).0;
    assert a.size == 25;
    MemalignIs(base + 25, 8, base + 32);
    MemalignIs(base + 40, 32, base + 64);
  }
}
