/** u_arena.c with the buffer it hands out. */
module Arena {
  import opened Wrappers
  import opened SStreamSpec
  import E = Endian
  import A = ArenaSpec

  const SIZE_MASK: nat := 0x8000_0000

  // U_memalign on the address base + offset.
  method Memalign(num: nat, align: A.Alignment) returns (p1: nat)
    ensures p1 == A.Memalign(num, align)
  {
    var algn := align;
    var up := num + (algn - 1);
    p1 := up - up % algn;
  }

  class UArena {
    const base: nat            // the address of buf
    var buf: array<Octet>
    var size: nat
    var totalSize: nat         // _total_size with its static-memory flag
    ghost var blocks: seq<A.Block>

    ghost function Model(): A.Arena
      reads this, buf
    {
      A.Arena(base, size, buf[..], blocks)
    }

    ghost predicate Valid()
      reads this, buf
    {
      totalSize % SIZE_MASK == buf.Length && A.Inv(Model())
    }

    // U_InitArena
    constructor (address: nat, n: nat)
      requires n < SIZE_MASK
      ensures Valid() && fresh(buf) && buf.Length == n && Model() == A.Initial(address, buf[..])
    {
      base, size, totalSize, blocks := address, 0, n, [];
      buf := new Octet[n];
    }

    // U_InitArenaStatic
    constructor Static(address: nat, mem: array<Octet>)
      requires mem.Length < SIZE_MASK
      ensures Valid() && buf == mem && Model() == A.Initial(address, mem[..])
    {
      base, size, totalSize, blocks := address, 0, mem.Length + SIZE_MASK, [];
      buf := mem;
    }

    // U_AllocArena; the offset of the block. The sum of the space test must fit an unsigned long.
    method Alloc(n: nat, alignment: A.Alignment) returns (p: Option<nat>)
      requires Valid() && size + 32 + n < 0x1_0000_0000_0000_0000
      modifies this`size, this`blocks, buf
      ensures alignment <= 16 || p.None? || p.value <= buf.Length ==> Valid()
      ensures buf == old(buf)
      ensures (Model(), p) == A.Alloc(old(Model()), n, alignment)
      ensures alignment <= 16 ==> (p.Some? <==> n > 0 && old(size) + 32 + n <= buf.Length)
    {
      hide A.Memalign, A.Inv, A.Contents, A.Patch, E.LittleEndian;
      if n == 0 {
        return None;
      }
      var total := totalSize % SIZE_MASK;
      if total < size + 32 + n {
        return None;
      }
      ghost var before := Model();
      if alignment <= 16 || A.StartAt(before, alignment) <= buf.Length { A.AllocKeeps(before, n, alignment); }
      if alignment <= 16 { A.SlackSuffices(before, n, alignment); }
      A.HeaderFits(before, n);
      var q := base + size;
      q := Memalign(q, 8);
      Put(q - base, E.LittleEndian(n, 8));   // the size header
      ghost var header := q - base;
      q := q + 8;
      q := Memalign(q, alignment);
      var left := base + total - q;
      if left < 0 || left > n {
        size := q - base;
        size := size + n;
        blocks := blocks + [A.Block(header, q - base, n, alignment)];
        return Some(q - base);
      }
      p := None;
    }

    // Bytes stored at an offset.
    method Put(at: nat, b: Text)
      requires at + |b| <= buf.Length
      modifies buf
      ensures buf[..] == A.Patch(old(buf[..]), at, b)
    {
      forall i | 0 <= i < |b| {
        buf[at + i] := b[i];
      }
    }

    // The owner of block k stores some bytes.
    method Store(ghost k: nat, start: nat, at: nat, b: Text)
      requires Valid() && k < |blocks| && blocks[k].start == start && at + |b| <= blocks[k].size
      modifies buf
      ensures Valid() && Model() == A.Write(old(Model()), k, at, b)
    {
      hide A.Patch, A.Contents;
      A.WriteKeeps(Model(), k, at, b);
      assert A.GoodBlock(base, buf[..], blocks[k], size);
      Put(start + at, b);
    }
  }
}
