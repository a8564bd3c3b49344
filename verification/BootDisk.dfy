/**
 tools/build.c lays out a floppy image and compiles the kernel's place on it into a map of
 cylinder/head/sector extents; boot/second.S interprets the map to load the kernel.
 */
module BootDisk {
  import opened Ram

  const SPT := 18
  const HEADS := 2
  const CYLINDER := 36
  const CHUNKS := 36
  const SECTOR := 512
  const MAP_SIZE := 1024
  const ENTRY := 5
  /** Sectors on the floppy: 80 tracks of two sides. */
  const DISK := 2880
  const ONE_MEGABYTE := 0x10_0000

  /** struct sect_addr; a sector number starts at 1. */
  datatype SectAddr = SectAddr(sector: Byte, track: Byte, device: Byte, head: Byte, num: Byte) {

    predicate Valid() { 1 <= sector <= SPT && head < HEADS }

    /** The linear number of the addressed sector. */
    function Lba(): int {
      (track as int * HEADS + head as int) * SPT + sector as int - 1
    }

    function Bytes(): seq<Byte> { [sector, track, device, head, num] }
  }

  // ---------------------------------------------------------------- build.c

  /** tools/build.c, inc_sector, in its own byte arithmetic: it advances the linear number. */
  method IncSector(addr: SectAddr, count: Byte) returns (r: SectAddr)
    requires addr.Valid() && addr.sector + count < 256 && addr.Lba() + count < 256 * CYLINDER
    ensures r.Valid() && r.Lba() == addr.Lba() + count
    ensures r.device == addr.device && r.num == addr.num
  {
    var sector, head, track := (addr.sector + count) % 256, addr.head as int, addr.track as int;
    if sector > SPT {
      sector := sector - 1;
      head := (head + sector / SPT) % 256;
      sector := sector % SPT;
      track := (track + head / HEADS) % 256;
      head := head % HEADS;
      sector := sector + 1;
    }
    r := SectAddr(sector, track, addr.device, head, addr.num);
  }

  /** es describes the sectors from, ..., to - 1: consecutive, no extent empty, none crossing a
      cylinder boundary, and each but the last reaching one. */
  ghost predicate Describes(es: seq<SectAddr>, from: int, to: int)
    decreases es
  {
    if es == [] then from == to
    else
      && es[0].Valid() && es[0].Lba() == from && 0 < es[0].num
      && from % CYLINDER + es[0].num <= CYLINDER
      && (from % CYLINDER + es[0].num == CYLINDER || |es| == 1)
      && Describes(es[1..], from + es[0].num, to)
  }

  /** A map in memory: the entries' bytes, then zeros. */
  function Encode(es: seq<SectAddr>): (b: seq<Byte>)
    ensures |b| == ENTRY * |es|
  {
    if es == [] then [] else es[0].Bytes() + Encode(es[1..])
  }

  lemma {:induction false} EncodeAt(es: seq<SectAddr>, j: nat)
    requires j < |es|
    ensures Encode(es)[ENTRY * j..ENTRY * j + ENTRY] == es[j].Bytes()
  {
    if j > 0 {
      EncodeAt(es[1..], j - 1);
      var b := Encode(es[1..]);
      assert Encode(es) == es[0].Bytes() + b;
      assert Encode(es)[ENTRY * j..ENTRY * j + ENTRY] == b[ENTRY * (j - 1)..ENTRY * (j - 1) + ENTRY];
    }
  }

  lemma {:induction false} EncodeSnoc(es: seq<SectAddr>, e: SectAddr)
    ensures Encode(es + [e]) == Encode(es) + e.Bytes()
  {
    if es == [] {
      assert es + [e] == [e] && [e][1..] == [];
    } else {
      assert (es + [e])[0] == es[0] && (es + [e])[1..] == es[1..] + [e];
      EncodeSnoc(es[1..], e);
    }
  }

  /** A description uses at most one entry per cylinder it touches. */
  lemma {:induction false} DescribesCount(es: seq<SectAddr>, from: int, to: int)
    requires Describes(es, from, to) && 0 <= from
    ensures from <= to && (es != [] ==> from < to && |es| <= (to - 1) / CYLINDER - from / CYLINDER + 1)
    decreases es
  {
    if es != [] {
      DescribesCount(es[1..], from + es[0].num, to);
    }
  }

  lemma ReachesBoundary(from: int, num: int)
    requires 0 < num && from % CYLINDER + num <= CYLINDER && (from + num) % CYLINDER == 0
    ensures from % CYLINDER + num == CYLINDER
  {
  }

  lemma {:induction false} DescribesSnoc(es: seq<SectAddr>, from: int, mid: int, e: SectAddr)
    requires Describes(es, from, mid) && e.Valid() && e.Lba() == mid && 0 < e.num && mid % CYLINDER + e.num <= CYLINDER
    requires es == [] || mid % CYLINDER == 0
    ensures Describes(es + [e], from, mid + e.num)
    decreases es
  {
    hide SectAddr.Lba, SectAddr.Valid;
    if es == [] {
      assert es + [e] == [e] && [e][1..] == [];
    } else {
      assert (es + [e])[0] == es[0] && (es + [e])[1..] == es[1..] + [e];
      if |es| == 1 { ReachesBoundary(from, es[0].num); }
      DescribesSnoc(es[1..], from + es[0].num, mid, e);
    }
  }

  /** b holds exactly the encoded entries, then only zeros. */
  ghost predicate IsMap(b: seq<Byte>, es: seq<SectAddr>) {
    |b| == MAP_SIZE && ENTRY * |es| <= MAP_SIZE && b[..ENTRY * |es|] == Encode(es)
    && forall i :: ENTRY * |es| <= i < MAP_SIZE ==> b[i] == 0
  }

  method StoreEntry(kmap: array<Byte>, j: nat, e: SectAddr)
    requires ENTRY * j + ENTRY <= kmap.Length
    modifies kmap
    ensures kmap[..] == old(kmap[..ENTRY * j]) + e.Bytes() + old(kmap[ENTRY * j + ENTRY..])
  {
    kmap[ENTRY * j] := e.sector;
    kmap[ENTRY * j + 1] := e.track;
    kmap[ENTRY * j + 2] := e.device;
    kmap[ENTRY * j + 3] := e.head;
    kmap[ENTRY * j + 4] := e.num;
  }

  lemma MapGrows(b: seq<Byte>, es: seq<SectAddr>, e: SectAddr, r: seq<Byte>)
    requires IsMap(b, es) && ENTRY * |es| + ENTRY <= MAP_SIZE
    requires r == b[..ENTRY * |es|] + e.Bytes() + b[ENTRY * |es| + ENTRY..]
    ensures IsMap(r, es + [e])
  {
    hide Encode;
    EncodeSnoc(es, e);
    assert r[..ENTRY * |es| + ENTRY] == b[..ENTRY * |es|] + e.Bytes();
    forall i | ENTRY * |es| + ENTRY <= i < MAP_SIZE
      ensures r[i] == 0
    {
      assert r[i] == b[i];
    }
  }

  /** What build.c computes as `remaining` is the rest of the cylinder. */
  lemma RestOfCylinder(a: SectAddr)
    requires a.Valid()
    ensures HEADS * SPT - (SPT * a.head as int + a.sector as int) + 1 == CYLINDER - a.Lba() % CYLINDER
    ensures 0 < CYLINDER - a.Lba() % CYLINDER <= CYLINDER && 0 <= a.Lba()
    ensures (a.Lba() + (CYLINDER - a.Lba() % CYLINDER)) % CYLINDER == 0
  {
    assert a.Lba() == CYLINDER * a.track as int + (SPT * a.head as int + a.sector as int - 1);
  }

  lemma NumIrrelevant(a: SectAddr, num: Byte)
    ensures a.(num := num).Lba() == a.Lba()
  {
  }

  /** The loop of tools/build.c that maps the kernel: extents as long as a cylinder allows. */
  method MapKernel(start: SectAddr, sectors: nat) returns (kmap: array<Byte>, ghost es: seq<SectAddr>)
    requires start.Valid() && 0 < start.Lba() && start.Lba() + sectors <= DISK
    ensures fresh(kmap) && kmap.Length == MAP_SIZE && IsMap(kmap[..], es)
            && Describes(es, start.Lba(), start.Lba() + sectors)
    ensures |es| <= 80
  {
    hide Describes, Encode, IsMap, SectAddr.Lba;
    kmap := new Byte[MAP_SIZE](_ => 0);
    es := [];
    EmptyMap(kmap[..], start.Lba());
    var next, i, j := start, 0, 0;
    ghost var done := 0;
    while i < sectors
      invariant 0 <= done <= sectors && (i < sectors ==> i == done) && (i >= sectors ==> done == sectors)
      invariant next.Valid() && next.Lba() == start.Lba() + done && j == |es|
      invariant es == [] || done == sectors || next.Lba() % CYLINDER == 0
      invariant IsMap(kmap[..], es) && Describes(es, start.Lba(), next.Lba())
      decreases sectors - i
    {
      var chunks, remaining := CHUNKS, HEADS * SPT - (SPT * next.head as int + next.sector as int) + 1;
      if remaining < chunks {
        chunks := remaining;
      }
      RestOfCylinder(next);
      var num := if sectors - i < chunks then sectors - i else chunks;
      var entry := next.(num := num);
      NumIrrelevant(next, num);
      DescribesCount(es, start.Lba(), next.Lba());
      ghost var before := kmap[..];
      StoreEntry(kmap, j, entry);
      MapGrows(before, es, entry, kmap[..]);
      DescribesSnoc(es, start.Lba(), next.Lba(), entry);
      i := i + chunks;
      next := IncSector(next, num);
      es, j, done := es + [entry], j + 1, done + num;
    }
    DescribesCount(es, start.Lba(), next.Lba());
  }

  lemma EmptyMap(b: seq<Byte>, from: int)
    requires |b| == MAP_SIZE && forall i :: 0 <= i < MAP_SIZE ==> b[i] == 0
    ensures IsMap(b, []) && Describes([], from, from)
  {
  }

  // ---------------------------------------------------------------- the image

  /** File contents in whole sectors, as build.c rounds them: always at least one more byte. */
  function Sectors(file: seq<Byte>): (n: nat)
    ensures |file| < n * SECTOR
  {
    |file| / SECTOR + 1
  }

  function Padded(file: seq<Byte>): (b: seq<Byte>)
    ensures |b| == Sectors(file) * SECTOR && b[..|file|] == file
  {
    file + seq(Sectors(file) * SECTOR - |file|, _ => 0)
  }

  /** Offset of mapaddr[0] in the second stage: jmp, signature, id, check, version, flag, pad. */
  const MAPADDR := 16

  /** Both stages' headers begin alike: four bytes of jump, then these. */
  predicate HeaderOk(b: seq<Byte>, id: Byte) {
    |b| >= MAPADDR && b[4..14] == [0x42, 0x4f, 0x4f, 0x54, id, 0, 0x34, 0x12, 1, 0]
  }

  /** A header is good exactly if it spells BOOT and holds the stage's id, the check word 0x1234 and
      version 1 as 16-bit words. */
  lemma GoodHeaders(b: seq<Byte>, id: Byte)
    requires |b| >= 16
    ensures HeaderOk(b, id) <==>
              && b[4] as int == 'B' as int && b[5] as int == 'O' as int && b[6] as int == 'O' as int
              && b[7] as int == 'T' as int
              && Load16(b, 8) == id && Load16(b, 10) == 0x1234 && Load16(b, 12) == 1
  {
    var t := b[4..14];
    assert t[0] == b[4] && t[1] == b[5] && t[2] == b[6] && t[3] == b[7] && t[4] == b[8];
    assert t[5] == b[9] && t[6] == b[10] && t[7] == b[11] && t[8] == b[12] && t[9] == b[13];
    var u: seq<Byte> := [0x42, 0x4f, 0x4f, 0x54, id, 0, 0x34, 0x12, 1, 0];
    assert t == u <==> forall i :: 0 <= i < 10 ==> t[i] == u[i];
  }

  /** The headers as boot/bootsect.S and boot/second.S assemble them, behind four bytes of jump. */
  lemma AssembledHeaders(jmp: seq<Byte>, first: seq<Byte>, second: seq<Byte>)
    requires |jmp| == 4 && |first| >= 2 && |second| >= 2
    ensures HeaderOk(jmp + [0x42, 0x4f, 0x4f, 0x54, 1, 0, 0x34, 0x12, 1, 0] + first, 1)
    ensures HeaderOk(jmp + [0x42, 0x4f, 0x4f, 0x54, 2, 0, 0x34, 0x12, 1, 0] + second, 2)
  {
    var b := jmp + [0x42, 0x4f, 0x4f, 0x54, 1, 0, 0x34, 0x12, 1, 0] + first;
    var c := jmp + [0x42, 0x4f, 0x4f, 0x54, 2, 0, 0x34, 0x12, 1, 0] + second;
    GoodHeaders(b, 1);
    GoodHeaders(c, 2);
  }

  /** Offsets of the boot sector's flag byte, whose low bit means halt, and of secaddr[0]. */
  const FLAG := 14
  const SECADDR := 16

  function StageAddr(stage: Byte): SectAddr { SectAddr(2, 0, 0, 0, stage) }

  /** A boot sector that loads a second stage of `stage` sectors from behind itself and starts it. */
  ghost predicate StartsStage(sect: seq<Byte>, stage: Byte) {
    |sect| == SECTOR && sect[FLAG] % 2 == 0 && sect[SECADDR..SECADDR + ENTRY] == StageAddr(stage).Bytes()
  }

  /** An image whose boot sector starts a second stage of `stage` sectors, which leads to a map of
      the kernel behind it. */
  ghost predicate Bootable(image: seq<Byte>, stage: nat, kernel: seq<Byte>, addr: SectAddr, es: seq<SectAddr>) {
    && 1 <= stage <= 17 && |image| == (3 + stage) * SECTOR + |kernel| && |image| <= DISK * SECTOR
    && StartsStage(image[..SECTOR], stage) && HeaderOk(image[SECTOR..(1 + stage) * SECTOR], 2)
    && image[(3 + stage) * SECTOR..] == kernel
    && addr.Valid() && addr.Lba() == 1 + stage && addr.num == 2
    && image[SECTOR + MAPADDR..SECTOR + MAPADDR + ENTRY] == addr.Bytes()
    && IsMap(image[(1 + stage) * SECTOR..(3 + stage) * SECTOR], es)
    && |kernel| % SECTOR == 0 && Describes(es, 3 + stage, 3 + stage + |kernel| / SECTOR) && |es| <= 80
  }

  /** What a bootable image holds, byte by byte: in the boot sector a clear halt bit and the address of
      the second stage; in the second stage's header the address of the map, which is two sectors in
      front of the kernel; cylinders have 36 sectors, heads 18. */
  lemma ImageBytes(image: seq<Byte>, stage: nat, kernel: seq<Byte>, addr: SectAddr, es: seq<SectAddr>)
    requires Bootable(image, stage, kernel, addr, es)
    ensures |image| >= 1024 && |image| == (3 + stage) * 512 + |kernel| && |image| <= 2880 * 512
    ensures image[14] % 2 == 0 && image[16..21] == [2, 0, 0, 0, stage]
    ensures 1 <= image[528] <= 18 && image[531] <= 1 && image[532] == 2
    ensures (image[529] * 2 + image[531]) * 18 + image[528] - 1 == 1 + stage
    ensures image[(3 + stage) * 512..] == kernel
  {
    var sect := image[..SECTOR];
    assert sect[FLAG] == image[14];
    assert image[16..21] == sect[SECADDR..SECADDR + ENTRY] == StageAddr(stage).Bytes();
    assert image[528..533] == addr.Bytes();
    EntryOf(image, 528, addr);
  }

  /** A boot sector file of 512 bytes is taken as it is. */
  lemma WholeBootSector(file: seq<Byte>)
    ensures forall i :: 0 <= i < 512 ==> BootSector(file)[i] == if i < |file| then file[i] else 0
  {
  }

  /** A file in whole sectors: itself, then at most a sector of zeros. */
  lemma PaddedFile(file: seq<Byte>)
    ensures var b := Padded(file);
            && |b| % 512 == 0 && |file| < |b| <= |file| + 512 && b[..|file|] == file && |b| == Sectors(file) * 512
            && forall i :: |file| <= i < |b| ==> b[i] == 0
  {
  }

  /** The boot sector as build.c reads it: 512 bytes, zeros where the file is shorter. */
  function BootSector(file: seq<Byte>): (b: seq<Byte>)
    ensures |b| == SECTOR
  {
    (file + seq(SECTOR, _ => 0))[..SECTOR]
  }

  /** Clear the halt flag and fill secaddr; `next` is the sector behind the second stage. */
  method PatchBootSector(sect: seq<Byte>, stage: nat) returns (r: seq<Byte>, next: SectAddr)
    requires |sect| == SECTOR && 1 <= stage <= 17
    ensures StartsStage(r, stage) && SameBut(r, sect, 14, 21) && r[14] / 2 == sect[14] / 2 && r[15] == sect[15]
    ensures next.Valid() && next.Lba() == 1 + stage
  {
    r := sect[FLAG := sect[FLAG] - sect[FLAG] % 2];
    next := StageAddr(0);
    var i, j := 0, 0;
    while i < stage
      invariant |r| == SECTOR && r[FLAG] % 2 == 0 && SameBut(r, sect, 14, 21)
                && r[14] / 2 == sect[14] / 2 && r[15] == sect[15]
      invariant (i == 0 && j == 0 && next == StageAddr(0))
                || (i >= stage && r[SECADDR..SECADDR + ENTRY] == StageAddr(stage).Bytes() && next.Valid()
                   && next.Lba() == 1 + stage)
    {
      var num := if stage - i < CHUNKS then stage - i else CHUNKS;
      PatchedPart(r, Overwrite(r, SECADDR + ENTRY * j, next.(num := num).Bytes()));
      r := Overwrite(r, SECADDR + ENTRY * j, next.(num := num).Bytes());
      next := IncSector(next, num);
      i, j := i + CHUNKS, j + 1;
    }
  }

  function Overwrite(s: seq<Byte>, at: nat, b: seq<Byte>): (r: seq<Byte>)
    requires at + |b| <= |s|
    ensures |r| == |s| && r[..at] == s[..at] && r[at..at + |b|] == b && r[at + |b|..] == s[at + |b|..]
    ensures forall i :: 0 <= i < at ==> r[i] == s[i]
  {
    s[..at] + b + s[at + |b|..]
  }

  /** tools/build.c, main, on the three files' contents: check the headers, patch the addresses of
      second stage and map, map the kernel, write everything in order. */
  method BuildImage(bsect: seq<Byte>, second: seq<Byte>, kernel: seq<Byte>)
    returns (ok: bool, image: seq<Byte>, ghost addr: SectAddr, ghost es: seq<SectAddr>)
    requires 3 + Sectors(second) + Sectors(kernel) <= DISK
    ensures ok <==> HeaderOk(BootSector(bsect), 1) && |second| <= 8192 && HeaderOk(Padded(second), 2)
    ensures ok ==> Bootable(image, Sectors(second), Padded(kernel), addr, es)
    ensures ok ==> |image| >= (1 + Sectors(second)) * 512
                   && SameBut(image[..512], BootSector(bsect), 14, 21)
                   && image[14] / 2 == BootSector(bsect)[14] / 2 && image[15] == BootSector(bsect)[15]
                   && SameBut(image[512..(1 + Sectors(second)) * 512], Padded(second), 16, 21)
    ensures !ok ==> image == []
  {
    hide IsMap, Describes, StartsStage, HeaderOk, BootSector;
    if !HeaderOk(BootSector(bsect), 1) || |second| > 8192 || !HeaderOk(Padded(second), 2) {
      return false, [], StageAddr(0), [];
    }
    var stage := Sectors(second);
    var sect, next := PatchBootSector(BootSector(bsect), stage);
    var mapaddr := next.(num := 2);
    NumIrrelevant(next, 2);
    var patched := Overwrite(Padded(second), MAPADDR, mapaddr.Bytes());
    HeaderKept(Padded(second), patched);
    PatchedPart(Padded(second), patched);
    next := IncSector(next, 2);
    var kmap;
    kmap, es := MapKernel(next, Sectors(kernel));
    ok, addr := true, mapaddr;
    image := sect + patched + kmap[..] + Padded(kernel);
    ImageParts(sect, patched, kmap[..], Padded(kernel), stage, mapaddr);
    assert |Padded(kernel)| / SECTOR == Sectors(kernel);
  }

  /** a and b differ at most between offsets `from` and `to`. */
  ghost predicate SameBut(a: seq<Byte>, b: seq<Byte>, from: nat, to: nat) {
    |a| == |b| && forall i :: 0 <= i < |a| && !(from <= i < to) ==> a[i] == b[i]
  }

  lemma PatchedPart(s: seq<Byte>, r: seq<Byte>)
    requires |r| == |s| >= 21 && r[..MAPADDR] == s[..MAPADDR] && r[MAPADDR + ENTRY..] == s[MAPADDR + ENTRY..]
    ensures SameBut(r, s, 16, 21)
  {
    forall i | 0 <= i < |r| && !(16 <= i < 21)
      ensures r[i] == s[i]
    {
      if i < 16 { assert r[..MAPADDR][i] == s[..MAPADDR][i]; }
      if i >= 21 { assert r[MAPADDR + ENTRY..][i - 21] == s[MAPADDR + ENTRY..][i - 21]; }
    }
  }

  lemma HeaderKept(s: seq<Byte>, r: seq<Byte>)
    requires HeaderOk(s, 2) && |r| == |s| && r[..MAPADDR] == s[..MAPADDR]
    ensures HeaderOk(r, 2)
  {
    assert r[4..14] == r[..MAPADDR][4..14] == s[..MAPADDR][4..14] == s[4..14];
  }

  lemma ImageParts(bsect: seq<Byte>, patched: seq<Byte>, kmap: seq<Byte>, kernel: seq<Byte>, stage: nat, addr: SectAddr)
    requires |bsect| == SECTOR && 1 <= stage && |patched| == stage * SECTOR && |kmap| == MAP_SIZE
    requires patched[MAPADDR..MAPADDR + ENTRY] == addr.Bytes()
    ensures var image := bsect + patched + kmap + kernel;
            && |image| == (3 + stage) * SECTOR + |kernel| && image[..SECTOR] == bsect
            && image[SECTOR..(1 + stage) * SECTOR] == patched
            && image[SECTOR + MAPADDR..SECTOR + MAPADDR + ENTRY] == addr.Bytes()
            && image[(1 + stage) * SECTOR..(3 + stage) * SECTOR] == kmap && image[(3 + stage) * SECTOR..] == kernel
  {
    var image := bsect + patched + kmap + kernel;
    assert image[SECTOR + MAPADDR..SECTOR + MAPADDR + ENTRY] == patched[MAPADDR..MAPADDR + ENTRY];
  }

  // ---------------------------------------------------------------- second.S

  /** A block move into high memory. */
  datatype Move = Move(base: int, data: seq<Byte>)

  /** The moves put `data` at consecutive addresses from `base` on, every byte once. */
  ghost predicate Places(moves: seq<Move>, base: int, data: seq<Byte>)
    decreases moves
  {
    if moves == [] then data == []
    else
      && moves[0].base == base && |moves[0].data| <= |data| && moves[0].data == data[..|moves[0].data|]
      && Places(moves[1..], base + |moves[0].data|, data[|moves[0].data|..])
  }

  lemma {:induction false} PlacesSnoc(moves: seq<Move>, base: int, data: seq<Byte>, m: Move)
    requires Places(moves, base, data) && m.base == base + |data|
    ensures Places(moves + [m], base, data + m.data)
    decreases moves
  {
    var all := data + m.data;
    if moves == [] {
      assert moves + [m] == [m] && [m][1..] == [];
      assert all == m.data && all[..|m.data|] == m.data && all[|m.data|..] == [];
    } else {
      var n := |moves[0].data|;
      assert (moves + [m])[0] == moves[0] && (moves + [m])[1..] == moves[1..] + [m];
      assert all[..n] == data[..n] && all[n..] == data[n..] + m.data;
      PlacesSnoc(moves[1..], base + n, data[n..], m);
    }
  }

  /** Placed data is in memory byte for byte: each address has exactly one move that writes it. */
  lemma {:induction false} PlacedBytes(moves: seq<Move>, base: int, data: seq<Byte>, a: int) returns (j: nat)
    requires Places(moves, base, data) && base <= a < base + |data|
    ensures j < |moves| && moves[j].base <= a < moves[j].base + |moves[j].data|
    ensures moves[j].data[a - moves[j].base] == data[a - base]
    ensures forall k :: 0 <= k < |moves| && k != j ==> !(moves[k].base <= a < moves[k].base + |moves[k].data|)
    decreases moves
  {
    var n := |moves[0].data|;
    if a < base + n {
      j := 0;
      BasesFrom(moves[1..], base + n, data[n..]);
    } else {
      j := PlacedBytes(moves[1..], base + n, data[n..], a);
      j := j + 1;
    }
    assert forall k :: 0 < k < |moves| ==> moves[k] == moves[1..][k - 1];
  }

  lemma {:induction false} BasesFrom(moves: seq<Move>, base: int, data: seq<Byte>)
    requires Places(moves, base, data)
    ensures forall k :: 0 <= k < |moves| ==> base <= moves[k].base
    decreases moves
  {
    if moves != [] {
      BasesFrom(moves[1..], base + |moves[0].data|, data[|moves[0].data|..]);
      assert forall k :: 0 < k < |moves| ==> moves[k] == moves[1..][k - 1];
    }
  }

  /** The BIOS read: within one cylinder it delivers consecutive sectors. */
  method ReadSectors(disk: seq<Byte>, addr: SectAddr) returns (data: seq<Byte>)
    requires addr.Valid() && addr.Lba() % CYLINDER + addr.num <= CYLINDER && (addr.Lba() + addr.num) * SECTOR <= |disk|
    ensures data == disk[addr.Lba() * SECTOR..(addr.Lba() + addr.num) * SECTOR]
  {
    data := disk[addr.Lba() * SECTOR..(addr.Lba() + addr.num) * SECTOR];
  }

  /** The destination base in the descriptor, a word and a byte, advanced by twice al * 256. */
  method AdvanceBase(low: int, high: int, al: Byte) returns (low': int, high': int)
    requires 0 <= low < 0x1_0000 && 0 <= high < 0x100 && high * 0x1_0000 + low + al * SECTOR < 0x100_0000
    ensures 0 <= low' < 0x1_0000 && 0 <= high' < 0x100
    ensures high' * 0x1_0000 + low' == high * 0x1_0000 + low + al * SECTOR
  {
    var cx := al * 256;
    low', high' := (low + cx) % 0x1_0000, (high + (low + cx) / 0x1_0000) % 0x100;
    low', high' := (low' + cx) % 0x1_0000, (high' + (low' + cx) / 0x1_0000) % 0x100;
  }

  /** The map fetches bsmith_dsk_debug lets pass; it stops the machine on the last of them. */
  const FETCHES := 194

  /** boot/second.S, lfile/load/rdhigh: interpret the map until the zero entry. */
  method LoadKernel(kmap: seq<Byte>, disk: seq<Byte>, ghost es: seq<SectAddr>, ghost from: int, ghost to: int)
    returns (halted: bool, moves: seq<Move>)
    requires IsMap(kmap, es) && Describes(es, from, to) && |es| <= 80
    requires 0 < from <= to <= DISK && to * SECTOR <= |disk|
    ensures !halted && Places(moves, ONE_MEGABYTE, disk[from * SECTOR..to * SECTOR])
  {
    hide IsMap, Describes, Places, SectAddr.Lba;
    var moff, low, high := 0, ONE_MEGABYTE % 0x1_0000, ONE_MEGABYTE / 0x1_0000;
    var counter := FETCHES;
    halted, moves := false, [];
    ghost var j, at := 0, from;
    StartPlaces();
    assert disk[from * SECTOR..at * SECTOR] == [];
    while true
      invariant !halted && counter == FETCHES - j
      invariant 0 <= j <= |es| && moff == ENTRY * j && from <= at <= to && Describes(es[j..], at, to)
      invariant 0 <= low < 0x1_0000 && 0 <= high < 0x100
      invariant high * 0x1_0000 + low == ONE_MEGABYTE + (at - from) * SECTOR
      invariant Places(moves, ONE_MEGABYTE, disk[from * SECTOR..at * SECTOR])
      decreases |es| - j
    {
      ReadEntry(kmap, es, j, at, to);
      var si := moff;
      var cx, dx, al := kmap[si] as int + 256 * kmap[si + 1] as int, kmap[si + 2] as int + 256 * kmap[si + 3] as int,
        kmap[si + 4];
      counter := (counter - 1) % 256;
      if counter == 0 {
        return true, moves;
      }
      if cx == 0 && dx == 0 {
        break;
      }
      moff := (si + ENTRY) % 0x1_0000;
      var addr := SectAddr(cx % 256, cx / 256, dx % 256, dx / 256, al);
      assert addr == es[j] by { EntryFromRegisters(kmap[si..si + ENTRY], es[j]); }
      var data := ReadSectors(disk, addr);
      PlacesSnoc(moves, ONE_MEGABYTE, disk[from * SECTOR..at * SECTOR], Move(high * 0x1_0000 + low, data));
      SliceJoin(disk, from * SECTOR, at * SECTOR, (at + al) * SECTOR);
      moves := moves + [Move(high * 0x1_0000 + low, data)];
      low, high := AdvanceBase(low, high, al);
      j, at := j + 1, at + al;
    }
  }

  lemma SliceOfPrefix(s: seq<Byte>, n: nat, a: nat, b: nat)
    requires a <= b <= n <= |s|
    ensures s[..n][a..b] == s[a..b]
  {
  }

  lemma SliceOfSlice(s: seq<Byte>, a: nat, b: nat, i: nat, j: nat)
    requires a <= b <= |s| && i <= j <= b - a
    ensures s[a..b][i..j] == s[a + i..a + j]
  {
    var t, u := s[a..b][i..j], s[a + i..a + j];
    assert forall k :: 0 <= k < j - i ==> t[k] == s[a + i + k] == u[k];
  }

  lemma DropStep(es: seq<SectAddr>, j: nat)
    requires j < |es|
    ensures es[j..][0] == es[j] && es[j..][1..] == es[j + 1..]
  {
  }

  lemma SliceJoin(s: seq<Byte>, a: nat, b: nat, c: nat)
    requires a <= b <= c <= |s|
    ensures s[a..b] + s[b..c] == s[a..c]
  {
  }

  /** cx and dx, split into their bytes again, are the entry's fields. */
  lemma EntryFromRegisters(b: seq<Byte>, e: SectAddr)
    requires |b| == ENTRY && b == e.Bytes()
    ensures SectAddr((b[0] as int + 256 * b[1] as int) % 256, (b[0] as int + 256 * b[1] as int) / 256,
                     (b[2] as int + 256 * b[3] as int) % 256, (b[2] as int + 256 * b[3] as int) / 256, b[4]) == e
  {
    assert b[0] == e.sector && b[1] == e.track && b[2] == e.device && b[3] == e.head && b[4] == e.num;
  }

  lemma StartPlaces()
    ensures Places([], ONE_MEGABYTE, [])
  {
  }

  /** What the loader finds at entry j. */
  lemma ReadEntry(kmap: seq<Byte>, es: seq<SectAddr>, j: nat, at: int, to: int)
    requires IsMap(kmap, es) && j <= |es| <= 80 && 0 <= at && Describes(es[j..], at, to)
    ensures |kmap| == MAP_SIZE
    ensures j == |es| ==> at == to && (forall i :: ENTRY * j <= i < ENTRY * j + ENTRY ==> kmap[i] == 0)
    ensures j < |es| ==>
              && kmap[ENTRY * j..ENTRY * j + ENTRY] == es[j].Bytes()
              && es[j].Valid() && es[j].Lba() == at && 0 < es[j].num && at % CYLINDER + es[j].num <= CYLINDER
              && at + es[j].num <= to && Describes(es[j + 1..], at + es[j].num, to)
  {
    if j < |es| {
      hide Encode;
      EncodeAt(es, j);
      SliceOfPrefix(kmap, ENTRY * |es|, ENTRY * j, ENTRY * j + ENTRY);
      DropStep(es, j);
      DescribesCount(es[j + 1..], at + es[j].num, to);
    }
  }

  // ---------------------------------------------------------------- bootsect.S and the whole way

  /** Where the first stage loads the second, relative to its own segment. */
  const SECOND := 0x1000

  /** boot/bootsect.S: load the extents of d_addr until a zero entry, then start the second stage
      unless the flag says halt. */
  method FirstStage(disk: seq<Byte>, ghost stage: nat) returns (started: bool, moves: seq<Move>)
    requires 1 <= stage <= 17 && (1 + stage) * SECTOR <= |disk| && StartsStage(disk[..SECTOR], stage)
    requires forall i :: SECADDR + ENTRY <= i < SECADDR + ENTRY + 4 ==> disk[i] == 0
    ensures started && moves == [Move(0x1000, disk[SECTOR..(1 + stage) * SECTOR])]
  {
    var si, bx := SECADDR, SECOND;
    moves := [];
    assert disk[..SECTOR][SECADDR..SECADDR + ENTRY] == disk[SECADDR..SECADDR + ENTRY] == StageAddr(stage).Bytes();
    while true
      invariant (si == SECADDR && bx == SECOND && moves == [])
                || (si == SECADDR + ENTRY && moves == [Move(SECOND, disk[SECTOR..(1 + stage) * SECTOR])])
      decreases SECADDR + ENTRY - si
    {
      var cx, dx := disk[si] as int + 256 * disk[si + 1] as int, disk[si + 2] as int + 256 * disk[si + 3] as int;
      if cx == 0 && dx == 0 {
        break;
      }
      var addr := SectAddr(cx % 256, cx / 256, dx % 256, dx / 256, disk[si + 4]);
      assert addr == StageAddr(stage) by { EntryFromRegisters(disk[si..si + ENTRY], StageAddr(stage)); }
      var data := ReadSectors(disk, addr);
      moves := moves + [Move(bx, data)];
      si, bx := si + ENTRY, (bx + 0x200) % 0x1_0000;
    }
    started := disk[FLAG] % 2 == 0;
  }

  /** boot/second.S from its header check on: its map address, the map, the kernel at one megabyte. */
  method SecondStage(second: seq<Byte>, disk: seq<Byte>, ghost kernel: seq<Byte>, ghost addr: SectAddr,
      ghost es: seq<SectAddr>)
    returns (started: bool, moves: seq<Move>)
    requires Bootable(disk, WholeSectors(second), kernel, addr, es)
             && second == disk[SECTOR..(1 + WholeSectors(second)) * SECTOR]
    ensures started && Places(moves, ONE_MEGABYTE, kernel)
  {
    hide IsMap, Describes, Places, StartsStage;
    ghost var stage := WholeSectors(second);
    if !HeaderOk(second, 2) {
      return false, [];
    }
    SliceOfSlice(disk, SECTOR, (1 + stage) * SECTOR, MAPADDR, MAPADDR + ENTRY);
    EntryOf(second, MAPADDR, addr);
    var mapaddr := SectAddr(second[MAPADDR], second[MAPADDR + 1], second[MAPADDR + 2], second[MAPADDR + 3],
      second[MAPADDR + 4]);
    assert mapaddr == addr;
    var kmap := ReadSectors(disk, mapaddr);
    assert kmap == disk[(1 + stage) * SECTOR..(3 + stage) * SECTOR];
    ghost var from, to := 3 + stage, 3 + stage + |kernel| / SECTOR;
    var halted;
    halted, moves := LoadKernel(kmap, disk, es, from, to);
    assert disk[from * SECTOR..to * SECTOR] == kernel;
    started := !halted;
  }

  lemma EntryOf(b: seq<Byte>, at: nat, e: SectAddr)
    requires at + ENTRY <= |b| && b[at..at + ENTRY] == e.Bytes()
    ensures SectAddr(b[at], b[at + 1], b[at + 2], b[at + 3], b[at + 4]) == e
  {
    var t := b[at..at + ENTRY];
    assert t[0] == b[at] && t[1] == b[at + 1] && t[2] == b[at + 2] && t[3] == b[at + 3] && t[4] == b[at + 4];
    assert t[0] == e.sector && t[1] == e.track && t[2] == e.device && t[3] == e.head && t[4] == e.num;
  }

  /** Whole sectors of a stage already in memory. */
  function WholeSectors(stage: seq<Byte>): nat { |stage| / SECTOR }

  /** Building an image and booting it, through both loader stages, recovers the kernel.  As
      assembled, the boot sector's address array is empty, so what follows its first entry is zero. */
  method BuildThenBoot(bsect: seq<Byte>, second: seq<Byte>, kernel: seq<Byte>)
      returns (ok: bool, started: bool, moves: seq<Move>)
    requires 3 + Sectors(second) + Sectors(kernel) <= 2880
    requires forall i :: SECADDR + ENTRY <= i < SECADDR + ENTRY + 4 ==> BootSector(bsect)[i] == 0
    ensures ok <==> HeaderOk(BootSector(bsect), 1) && |second| <= 8192 && HeaderOk(Padded(second), 2)
    ensures ok ==> started && Places(moves, 0x10_0000, Padded(kernel))
  {
    hide Places, IsMap, Describes, StartsStage, HeaderOk, BootSector, SameBut;
    var image;
    ghost var addr, es;
    ok, image, addr, es := BuildImage(bsect, second, kernel);
    started, moves := false, [];
    if ok {
      ghost var stage := Sectors(second);
      TerminatorKept(image, BootSector(bsect));
      var loaded;
      started, loaded := FirstStage(image, stage);
      assert |loaded[0].data| == stage * SECTOR && WholeSectors(loaded[0].data) == stage;
      started, moves := SecondStage(loaded[0].data, image, Padded(kernel), addr, es);
    }
  }

  lemma TerminatorKept(image: seq<Byte>, sect: seq<Byte>)
    requires |sect| == SECTOR <= |image| && SameBut(image[..SECTOR], sect, 14, 21)
    ensures forall i :: SECADDR + ENTRY <= i < SECTOR ==> image[i] == sect[i]
  {
    assert forall i :: 0 <= i < SECTOR ==> image[..SECTOR][i] == image[i];
  }
}
