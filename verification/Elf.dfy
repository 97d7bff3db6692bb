/**
 The ELF loader: 64-bit header checks with their wrap-around tests, and the image
 that a successful load leaves in an address space.
 */
module Elf {
  import opened Octets
  import opened Arith
  import opened Pmm
  import opened Vmm
  import opened Fork
  import opened UserImage

  const W64 := 0x1_0000_0000_0000_0000
  const USER_VA_MIN := 0x1_0000
  const USER_VA_MAX := 0x7FFF_FFFF_FFFF
  const PT_LOAD := 1

  // ----- little-endian fields -----

  function U16(d: seq<byte>, o: nat): (r: nat)
    requires o + 2 <= |d|
    ensures r < 0x1_0000
  {
    d[o] as int + 0x100 * (d[o + 1] as int)
  }

  function U32(d: seq<byte>, o: nat): (r: nat)
    requires o + 4 <= |d|
    ensures r < 0x1_0000_0000
  {
    U16(d, o) + 0x1_0000 * U16(d, o + 2)
  }

  function U64(d: seq<byte>, o: nat): (r: nat)
    requires o + 8 <= |d|
    ensures r < W64
  {
    U32(d, o) + 0x1_0000_0000 * U32(d, o + 4)
  }

  // ----- headers -----

  datatype Phdr = Phdr(kind: nat, offset: nat, vaddr: nat, filesz: nat, memsz: nat)

  function PhOff(d: seq<byte>): nat requires |d| >= 64 { U64(d, 32) }

  function PhEntSize(d: seq<byte>): nat requires |d| >= 64 { U16(d, 54) }

  function PhNum(d: seq<byte>): nat requires |d| >= 64 { U16(d, 56) }

  predicate Validate(d: seq<byte>)
    ensures Validate(d) ==> |d| >= 64
  {
    && |d| >= 64 && U32(d, 0) == 0x464C_457F && d[4] == 2 && d[5] == 1
    && (U16(d, 16) == 2 || U16(d, 16) == 3) && U16(d, 18) == 62
    && PhOff(d) != 0 && PhNum(d) != 0 && PhEntSize(d) >= 56
    && PhOff(d) <= (PhOff(d) + Times(PhNum(d), PhEntSize(d))) % W64 <= |d|
  }

  lemma {:induction false} TimesBound(n: nat, d: nat)
    requires d < 0x1_0000
    ensures Times(n, d) <= n * 0xFFFF
  {
    if n > 0 {
      TimesBound(n - 1, d);
    }
  }

  /** The header table of an accepted file lies inside the file: the wrap test
      suffices. */
  lemma HeadersInside(d: seq<byte>, i: nat)
    requires Validate(d) && i < PhNum(d)
    ensures PhOff(d) + Times(i, PhEntSize(d)) + 56 <= |d|
  {
    hide U16, U32, U64;
    TimesBound(PhNum(d), PhEntSize(d));
    TimesStep(i, PhNum(d), PhEntSize(d));
  }

  function PhdrAt(d: seq<byte>, i: nat): Phdr
    requires Validate(d) && i < PhNum(d)
  {
    HeadersInside(d, i);
    var o := PhOff(d) + Times(i, PhEntSize(d));
    Phdr(U32(d, o), U64(d, o + 8), U64(d, o + 16), U64(d, o + 32), U64(d, o + 40))
  }

  // ----- segments -----

  predicate IsLoad(s: Phdr) { s.kind == PT_LOAD && s.memsz != 0 }

  /** Where a segment goes, as the loader computes it. */
  function Target(s: Phdr, base: nat): nat { (s.vaddr + base) % W64 }

  /** The loader's tests of one segment, on 64-bit words. */
  predicate SegOk(d: seq<byte>, s: Phdr, base: nat) {
    && s.offset <= (s.offset + s.filesz) % W64 <= |d| && s.filesz <= s.memsz
    && s.vaddr <= Target(s, base) && USER_VA_MIN <= Target(s, base)
    && Target(s, base) <= (Target(s, base) + s.memsz) % W64 <= USER_VA_MAX
  }

  /** The file part is inside the file and the memory part inside user space. */
  predicate Sound(d: seq<byte>, s: Phdr, base: nat) {
    && s.offset + s.filesz <= |d| && s.filesz <= s.memsz
    && USER_VA_MIN <= s.vaddr + base && s.vaddr + base + s.memsz <= USER_VA_MAX
  }

  /** The wrap-around tests say exactly that, on the integers. */
  lemma SegmentInside(d: seq<byte>, s: Phdr, base: nat)
    requires base < W64 && s.offset < W64 && s.vaddr < W64 && s.filesz < W64 && s.memsz < W64 && |d| < W64
    ensures SegOk(d, s, base) <==> Sound(d, s, base)
    ensures Sound(d, s, base) ==> Target(s, base) == s.vaddr + base
  {
  }

  /** The first n headers pass the loader's tests. */
  ghost predicate AllOk(d: seq<byte>, base: nat, n: nat)
    requires Validate(d) && n <= PhNum(d)
  {
    forall i: nat :: i < n && IsLoad(PhdrAt(d, i)) ==> Sound(d, PhdrAt(d, i), base)
  }

  /** Header i loads a segment over address x. */
  ghost predicate Covers(d: seq<byte>, base: nat, i: nat, x: nat)
    requires Validate(d) && i < PhNum(d)
  {
    var s := PhdrAt(d, i);
    IsLoad(s) && s.vaddr + base <= x < s.vaddr + base + s.memsz
  }

  /** What a segment has at an address it covers: file bytes, then zeros. */
  ghost function SegmentByte(d: seq<byte>, s: Phdr, base: nat, x: nat): byte
    requires Sound(d, s, base) && s.vaddr + base <= x
  {
    if x < s.vaddr + base + s.filesz then d[s.offset + (x - s.vaddr - base)] else 0
  }

  /** Address x after the first n headers, on top of an image. */
  ghost function Expect(img: Image, d: seq<byte>, base: nat, n: nat, x: nat): byte
    requires ImageOk(img) && Validate(d) && n <= PhNum(d) && AllOk(d, base, n)
  {
    if n == 0 then (if x / 4096 in img then At(img, x) else 0)
    else if Covers(d, base, n - 1, x) then SegmentByte(d, PhdrAt(d, n - 1), base, x)
    else Expect(img, d, base, n - 1, x)
  }

  /** Some of the first n headers loads a segment that touches page k. */
  ghost predicate Touched(d: seq<byte>, base: nat, n: nat, k: nat)
    requires Validate(d) && n <= PhNum(d)
  {
    exists i: nat :: i < n && Touches(d, base, i, k)
  }

  ghost predicate Touches(d: seq<byte>, base: nat, i: nat, k: nat)
    requires Validate(d) && i < PhNum(d)
  {
    var s := PhdrAt(d, i);
    IsLoad(s) && 4096 * k < s.vaddr + base + s.memsz && s.vaddr + base < 4096 * (k + 1)
  }

  /** img' is img after the first n headers: exactly the touched pages were
      added, and every byte is as expected. */
  ghost predicate Loaded(img: Image, img': Image, d: seq<byte>, base: nat, n: nat)
    requires Validate(d) && n <= PhNum(d)
  {
    && ImageOk(img) && ImageOk(img') && AllOk(d, base, n)
    && (forall k: nat :: k in img' <==> k in img || Touched(d, base, n, k))
    && (forall x: nat :: x / 4096 in img' ==> At(img', x) == Expect(img, d, base, n, x))
  }

  lemma LoadedSkip(img: Image, img': Image, d: seq<byte>, base: nat, n: nat)
    requires Validate(d) && n < PhNum(d) && Loaded(img, img', d, base, n) && !IsLoad(PhdrAt(d, n))
    ensures Loaded(img, img', d, base, n + 1)
  {
    hide Validate, PhdrAt, PhNum;
    forall k: nat ensures Touched(d, base, n + 1, k) <==> Touched(d, base, n, k) {
      TouchedStep(d, base, n, k);
    }
    forall x: nat | x / 4096 in img' ensures At(img', x) == Expect(img, d, base, n + 1, x) {
    }
  }

  lemma TouchedStep(d: seq<byte>, base: nat, n: nat, k: nat)
    requires Validate(d) && n < PhNum(d)
    ensures Touched(d, base, n + 1, k) <==> Touched(d, base, n, k) || Touches(d, base, n, k)
  {
    hide Validate, PhdrAt, PhNum, Touches;
  }

  /** The image after the page loop, the copy and the clearing of one segment. */
  lemma LoadedSegment(img: Image, img1: Image, img2: Image, img3: Image, img4: Image, d: seq<byte>, base: nat, n: nat)
    requires Validate(d) && n < PhNum(d) && Loaded(img, img1, d, base, n)
    requires IsLoad(PhdrAt(d, n)) && Sound(d, PhdrAt(d, n), base)
    requires var s := PhdrAt(d, n); var va := s.vaddr + base;
      && Filled(img1, img2, va / 4096, (va + s.memsz + 4095) / 4096)
      && Placed(img2, img3, va, d[s.offset..s.offset + s.filesz])
      && Placed(img3, img4, va + s.filesz, Zeros(s.memsz - s.filesz))
    ensures Loaded(img, img4, d, base, n + 1)
  {
    hide Validate, PhdrAt, PhNum, Touched, Expect, At, SegmentByte, Sound;
    forall k: nat ensures k in img4 <==> k in img || Touched(d, base, n + 1, k) {
      TouchedStep(d, base, n, k);
    }
    AllOkStep(d, base, n);
    forall x: nat | x / 4096 in img4 ensures At(img4, x) == Expect(img, d, base, n + 1, x) {
      LoadedByte(img, img1, img2, img3, img4, d, base, n, x);
    }
  }

  lemma AllOkStep(d: seq<byte>, base: nat, n: nat)
    requires Validate(d) && n < PhNum(d) && AllOk(d, base, n) && IsLoad(PhdrAt(d, n)) && Sound(d, PhdrAt(d, n), base)
    ensures AllOk(d, base, n + 1)
  {
    hide Validate, PhdrAt, PhNum;
  }

  lemma LoadedByte(
    img: Image, img1: Image, img2: Image, img3: Image, img4: Image, d: seq<byte>, base: nat, n: nat, x: nat)
    requires Validate(d) && n < PhNum(d) && Loaded(img, img1, d, base, n) && AllOk(d, base, n + 1)
    requires IsLoad(PhdrAt(d, n)) && Sound(d, PhdrAt(d, n), base) && x / 4096 in img4
    requires var s := PhdrAt(d, n); var va := s.vaddr + base;
      && Filled(img1, img2, va / 4096, (va + s.memsz + 4095) / 4096)
      && Placed(img2, img3, va, d[s.offset..s.offset + s.filesz])
      && Placed(img3, img4, va + s.filesz, Zeros(s.memsz - s.filesz))
    ensures At(img4, x) == Expect(img, d, base, n + 1, x)
  {
    hide Validate, PhdrAt, PhNum, Touched, At, SegmentByte;
    NewByte(img1, img2, img3, img4, d, PhdrAt(d, n), base, x);
    if !Covers(d, base, n, x) && x / 4096 !in img1 {
      Fresh(img, d, base, n, x);
    }
  }

  lemma NewByte(img1: Image, img2: Image, img3: Image, img4: Image, d: seq<byte>, s: Phdr, base: nat, x: nat)
    requires Sound(d, s, base) && ImageOk(img1)
    requires var va := s.vaddr + base;
      && Filled(img1, img2, va / 4096, (va + s.memsz + 4095) / 4096)
      && Placed(img2, img3, va, d[s.offset..s.offset + s.filesz])
      && Placed(img3, img4, va + s.filesz, Zeros(s.memsz - s.filesz))
    requires x / 4096 in img4
    ensures s.vaddr + base <= x < s.vaddr + base + s.memsz ==> At(img4, x) == SegmentByte(d, s, base, x)
    ensures !(s.vaddr + base <= x < s.vaddr + base + s.memsz) ==>
      At(img4, x) == if x / 4096 in img1 then At(img1, x) else 0
  {
    assert At(img2, x) == if x / 4096 in img1 then At(img1, x) else 0;
  }

  /** A page that was not there and that no segment touches has no byte set. */
  lemma {:induction false} Fresh(img: Image, d: seq<byte>, base: nat, n: nat, x: nat)
    requires ImageOk(img) && Validate(d) && n <= PhNum(d) && AllOk(d, base, n)
    requires x / 4096 !in img && !Touched(d, base, n, x / 4096)
    ensures Expect(img, d, base, n, x) == 0
  {
    hide Validate, PhdrAt, PhNum;
    if n > 0 {
      TouchedStep(d, base, n - 1, x / 4096);
      Fresh(img, d, base, n - 1, x);
    }
  }

  // ----- what the image is -----

  ghost predicate Disjoint(d: seq<byte>, base: nat)
    requires Validate(d)
  {
    forall i: nat, j: nat, x: nat :: i < j < PhNum(d) ==> !(Covers(d, base, i, x) && Covers(d, base, j, x))
  }

  /** With disjoint segments each has its own bytes, also on shared pages. */
  lemma {:induction false} SegmentImage(img: Image, d: seq<byte>, base: nat, n: nat, i: nat, x: nat)
    requires ImageOk(img) && Validate(d) && i < n <= PhNum(d) && AllOk(d, base, n)
    requires Disjoint(d, base) && Covers(d, base, i, x)
    ensures Expect(img, d, base, n, x) == SegmentByte(d, PhdrAt(d, i), base, x)
  {
    hide Validate, PhdrAt, PhNum, Covers;
    if i < n - 1 {
      SegmentImage(img, d, base, n - 1, i, x);
    }
  }

  /** Where no segment lies, memory is as before, and zero if it is new. */
  lemma {:induction false} Elsewhere(img: Image, d: seq<byte>, base: nat, n: nat, x: nat)
    requires ImageOk(img) && Validate(d) && n <= PhNum(d) && AllOk(d, base, n)
    requires forall i: nat :: i < n ==> !Covers(d, base, i, x)
    ensures Expect(img, d, base, n, x) == if x / 4096 in img then At(img, x) else 0
  {
    hide Validate, PhdrAt, PhNum, Covers;
    if n > 0 {
      Elsewhere(img, d, base, n - 1, x);
    }
  }

  // ----- the loader -----

  datatype LoadResult = Ready(entry: nat) | Rejected | OutOfMemory | Halted

  /** Map and fill one segment. */
  method LoadSegment(m: Machine, d: seq<byte>, root: nat, base: nat, i: nat, ghost img0: Image, ghost img: Image)
    returns (r: Outcome, ghost img': Image)
    requires m.Inv() && Place(root, []) in m.at && Shows(m.mem, m.at, root, img)
    requires Validate(d) && i < PhNum(d) && IsLoad(PhdrAt(d, i)) && Sound(d, PhdrAt(d, i), base)
    requires Loaded(img0, img, d, base, i)
    modifies m, m.frames, m.frames.bitmap
    ensures m.Inv()
    ensures r != Panic ==>
      && m.other == old(m.other) && Place(root, []) in m.at && Shows(m.mem, m.at, root, img')
      && Beside(old(m.mem), old(m.at), m.mem, m.at, root)
    ensures r == Done ==> Loaded(img0, img', d, base, i + 1)
    ensures r == NoMemory ==> Full(m.frames.InUse())
    ensures r == Panic ==> NoLow(m.frames.InUse())
  {
    hide Validate, PhdrAt, PhNum, Accounted, Flags, Shape, Beside, Loaded, Shows, Filled, Placed, Full, NoLow;
    var s := PhdrAt(d, i);
    var va := s.vaddr + base;
    ghost var m0, a0, img2 := m.mem, m.at, img;
    r, img2 := MapRange(m, root, va / 4096, (va + s.memsz + 4095) / 4096, img);
    img' := img2;
    if r != Done {
      return;
    }
    ghost var m1, a1, img3 := m.mem, m.at, img2;
    img3, img' := FillSegment(m, d, root, va, s, img, img2);
    BesideTrans(m0, a0, m1, a1, m.mem, a1, root);
    LoadedSegment(img0, img, img2, img3, img', d, base, i);
  }

  /** The file bytes of a segment, then zeros, on pages that are mapped. */
  method FillSegment(m: Machine, d: seq<byte>, root: nat, va: nat, s: Phdr, ghost was: Image, ghost img: Image)
    returns (ghost img3: Image, ghost img4: Image)
    requires m.Inv() && Place(root, []) in m.at && Shows(m.mem, m.at, root, img)
    requires s.offset + s.filesz <= |d| && s.filesz <= s.memsz && va + s.memsz <= 4096 * USER_PAGES
    requires Filled(was, img, va / 4096, (va + s.memsz + 4095) / 4096)
    modifies m`mem
    ensures m.Inv() && Shows(m.mem, m.at, root, img4) && Beside(old(m.mem), m.at, m.mem, m.at, root)
    ensures Placed(img, img3, va, d[s.offset..s.offset + s.filesz])
    ensures Placed(img3, img4, va + s.filesz, Zeros(s.memsz - s.filesz))
  {
    hide Accounted, Flags, Shape, Beside, Shows, Placed, Filled;
    ghost var m0, k, src := m.mem, 0, d[s.offset..s.offset + s.filesz];
    img3, k := WriteInto(m, root, va, d[s.offset..s.offset + s.filesz], img);
    FilledCovers(was, img, va, s.memsz, k);
    assert src[..k] == src;
    PlacedKeys(img, img3, va, src);
    ghost var m1 := m.mem;
    img4, k := ZeroInto(m, root, va + s.filesz, s.memsz - s.filesz, img3);
    FilledCovers(was, img, va, s.memsz, s.filesz + k);
    BesideTrans(m0, m.at, m1, m.at, m.mem, m.at, root);
  }

  lemma FilledCovers(img: Image, img': Image, va: nat, size: nat, k: nat)
    requires Filled(img, img', va / 4096, (va + size + 4095) / 4096)
    ensures k < size ==> (va + k) / 4096 in img'
  {
  }

  /** Load every segment of an ELF file at an offset. On success the image is the
      expected one and nothing outside this address space changed. */
  method LoadAt(m: Machine, d: seq<byte>, root: nat, base: nat, ghost img: Image)
    returns (r: LoadResult, ghost img': Image)
    requires m.Inv() && Place(root, []) in m.at && Shows(m.mem, m.at, root, img)
    requires |d| < 0x8000_0000 && base < W64
    modifies m, m.frames, m.frames.bitmap
    ensures m.Inv()
    ensures !r.Halted? ==>
      && m.other == old(m.other) && Place(root, []) in m.at && Shows(m.mem, m.at, root, img')
      && Beside(old(m.mem), old(m.at), m.mem, m.at, root)
    ensures r.Ready? ==> Validate(d) && Loaded(img, img', d, base, PhNum(d)) && r.entry == (U64(d, 24) + base) % W64
    ensures r.OutOfMemory? ==> Full(m.frames.InUse())
    ensures r.Halted? ==> NoLow(m.frames.InUse())
    ensures r.Rejected? <==> !Acceptable(d, base) && !r.OutOfMemory? && !r.Halted?
  {
    hide Validate, PhdrAt, PhNum, Accounted, Flags, Shape, Beside, Loaded, Shows, SegOk, Sound, Full, NoLow;
    ghost var m0, a0 := m.mem, m.at;
    BesideSelf(m0, a0, root);
    img' := img;
    if !Validate(d) {
      return Rejected, img';
    }
    LoadedNone(m.mem, m.at, root, img, d, base);
    var i := 0;
    while i < PhNum(d)
      invariant 0 <= i <= PhNum(d) && m.Inv() && m.other == old(m.other) && Place(root, []) in m.at
      invariant Shows(m.mem, m.at, root, img') && Beside(m0, a0, m.mem, m.at, root) && Loaded(img, img', d, base, i)
    {
      var s := PhdrAt(d, i);
      if IsLoad(s) {
        FieldBounds(d, i);
        SegmentInside(d, s, base);
        if !SegOk(d, s, base) {
          return Rejected, img';
        }
        ghost var m1, a1 := m.mem, m.at;
        var res;
        res, img' := LoadSegment(m, d, root, base, i, img, img');
        if res == Panic {
          return Halted, img';
        }
        BesideTrans(m0, a0, m1, a1, m.mem, m.at, root);
        if res == NoMemory {
          return OutOfMemory, img';
        }
      } else {
        LoadedSkip(img, img', d, base, i);
      }
      i := i + 1;
    }
    LoadedAllOk(img, img', d, base);
    return Ready((U64(d, 24) + base) % W64), img';
  }

  /** A page that the user stack will take. */
  predicate IsStackPage(k: nat) { STACK_TOP - STACK_PAGES <= k < STACK_TOP }

  /** A segment of the file touches a page of the stack. */
  ghost predicate ReachesStack(d: seq<byte>, base: nat)
    requires Validate(d)
  {
    exists k: nat :: IsStackPage(k) && Touched(d, base, PhNum(d), k)
  }

  /** Load a file into a fresh address space and set up its stack, as spawn and exec
      do. Every frame stays owned if and only if no segment reaches the stack. */
  method LoadWithStack(m: Machine, d: seq<byte>, root: nat, base: nat) returns (r: LoadResult)
    requires m.Inv() && Place(root, []) in m.at && Shows(m.mem, m.at, root, map[])
    requires |d| < 0x8000_0000 && base < W64
    modifies m, m.frames, m.frames.bitmap
    ensures m.Inv()
    ensures r.Ready? ==>
      && Acceptable(d, base) && r.entry == (U64(d, 24) + base) % W64
      && (m.other == old(m.other) <==> !ReachesStack(d, base))
      && exists img: Image ::
        && Loaded(map[], img, d, base, PhNum(d)) && Shows(m.mem, m.at, root, Stacked(img, STACK_PAGES))
    ensures r.Rejected? ==> !Acceptable(d, base)
    ensures r.OutOfMemory? ==> Full(m.frames.InUse())
    ensures r.Halted? ==> NoLow(m.frames.InUse())
  {
    hide Accounted, Flags, Shape, Beside, Shows, SegOk, Sound, Full, NoLow, Validate, PhdrAt, PhNum, Stacked, Touched,
      AllOk, Expect, SamePages;
    ghost var img;
    r, img := LoadAt(m, d, root, base, map[]);
    if !r.Ready? {
      return;
    }
    var s := MapStack(m, root, img);
    if s == Panic {
      return Halted;
    }
    if s == NoMemory {
      return OutOfMemory;
    }
    assert (forall k: nat :: IsStackPage(k) ==> k !in img) <==> !ReachesStack(d, base);
  }

  /** A file of one segment, a byte of zero memory at 0x7FC000. */
  function LowStack(): (d: seq<byte>) { seq(120, (i: nat) => LowStackByte(i)) }

  function LowStackByte(i: nat): byte {
    if i == 0 then 0x7F else if i == 1 then 0x45 else if i == 2 then 0x4C else if i == 3 then 0x46
    else if i == 4 then 2 else if i == 5 then 1 else if i == 16 then 2 else if i == 18 then 62
    else if i == 32 then 64 else if i == 54 then 56 else if i == 56 then 1
    else if i == 64 then 1 else if i == 81 then 0xC0 else if i == 82 then 0x7F else if i == 104 then 1 else 0
  }

  lemma LowStackHeader()
    ensures |LowStack()| == 120
    ensures var d := LowStack();
      && U32(d, 0) == 0x464C_457F && d[4] == 2 && d[5] == 1 && U16(d, 16) == 2 && U16(d, 18) == 62
      && U64(d, 32) == 64 && U16(d, 54) == 56 && U16(d, 56) == 1
  {
  }

  lemma LowStackSegment()
    ensures |LowStack()| == 120
    ensures var d := LowStack();
      U32(d, 64) == 1 && U64(d, 72) == 0 && U64(d, 80) == 0x7F_C000 && U64(d, 96) == 0 && U64(d, 104) == 1
  {
    hide U32, U64, LowStack;
    LowStackWord(64, 1);
    LowStackWord(72, 0);
    LowStackWord(76, 0);
    LowStackWord(80, 0x7F_C000);
    LowStackWord(84, 0);
    LowStackWord(96, 0);
    LowStackWord(100, 0);
    LowStackWord(104, 1);
    LowStackWord(108, 0);
    TwoWords(72);
    TwoWords(80);
    TwoWords(96);
    TwoWords(104);
  }

  lemma LowStackWord(o: nat, v: nat)
    requires o + 4 <= 120
    requires v == LowStackByte(o) as int + 0x100 * (LowStackByte(o + 1) as int)
                  + 0x1_0000 * (LowStackByte(o + 2) as int + 0x100 * (LowStackByte(o + 3) as int))
    ensures |LowStack()| == 120 && U32(LowStack(), o) == v
  {
    hide LowStackByte;
  }

  lemma TwoWords(o: nat)
    requires o + 8 <= 120
    ensures |LowStack()| == 120 && U64(LowStack(), o) == U32(LowStack(), o) + 0x1_0000_0000 * U32(LowStack(), o + 4)
  {
    hide U32, LowStackByte;
  }

  lemma LowStackHeaders()
    ensures var d := LowStack();
      Validate(d) && PhNum(d) == 1 && PhdrAt(d, 0) == Phdr(1, 0, 0x7F_C000, 0, 1)
  {
    hide U16, U32, U64, LowStack;
    LowStackHeader();
    LowStackSegment();
    assert Times(1, 56) == 56 && Times(0, 56) == 0;
  }

  /** The loader takes it, and the stack setup then loses a frame. */
  lemma LowStackReaches()
    ensures Acceptable(LowStack(), 0) && ReachesStack(LowStack(), 0)
  {
    hide U16, U32, U64, LowStack, Validate, PhdrAt, PhNum;
    LowStackHeaders();
    assert |LowStack()| >= 64;
    assert Touches(LowStack(), 0, 0, 0x7FC) && IsStackPage(0x7FC);
  }

  /** A file the loader takes, memory permitting. */
  ghost predicate Acceptable(d: seq<byte>, base: nat) {
    Validate(d) && AllOk(d, base, PhNum(d))
  }

  lemma LoadedNone(mem: Memory, at: Layout, r: nat, img: Image, d: seq<byte>, base: nat)
    requires Validate(d) && Shows(mem, at, r, img)
    ensures Loaded(img, img, d, base, 0)
  {
  }

  lemma LoadedAllOk(img: Image, img': Image, d: seq<byte>, base: nat)
    requires Validate(d) && Loaded(img, img', d, base, PhNum(d))
    ensures AllOk(d, base, PhNum(d))
  {
  }

  lemma FieldBounds(d: seq<byte>, i: nat)
    requires Validate(d) && i < PhNum(d)
    ensures var s := PhdrAt(d, i); s.offset < W64 && s.vaddr < W64 && s.filesz < W64 && s.memsz < W64
  {
    hide U64, U32, U16;
  }
}
