/**
 One address space seen as an image: page numbers mapped to 4096 bytes. The
 loader's page and byte loops are proved against this view.
 */
module UserImage {
  import opened Octets
  import opened Pmm
  import opened Vmm
  import opened VmmFree
  import opened Fork

  const USER_PAGES := 0x8_0000_0000    // pages below 2^47

  /** The four table indices of a page number. */
  function Path(n: nat): (p: seq<nat>)
    requires n < USER_PAGES
    ensures |p| == 4 && PathOk(p)
  {
    [n / 512 / 512 / 512, n / 512 / 512 % 512, n / 512 % 512, n % 512]
  }

  lemma PathUnique(n: nat, k: nat)
    requires n < USER_PAGES && k < USER_PAGES && Path(n) == Path(k)
    ensures n == k
  {
    assert Path(n)[0] == Path(k)[0] && Path(n)[1] == Path(k)[1] && Path(n)[2] == Path(k)[2] && Path(n)[3] == Path(k)[3];
    hide Path;
    SameDigits(n / 512 / 512, k / 512 / 512);
    SameDigits(n / 512, k / 512);
    SameDigits(n, k);
  }

  lemma SameDigits(n: nat, k: nat)
    requires n / 512 == k / 512 && n % 512 == k % 512
    ensures n == k
  {
  }

  type Image = map<nat, seq<byte>>

  predicate ImageOk(img: Image) {
    forall n :: n in img ==> n < USER_PAGES && |img[n]| == 4096
  }

  /** The tables of address space r show this image. */
  ghost predicate Shows(mem: Memory, at: Layout, r: nat, img: Image) {
    && ImageOk(img)
    && (forall n: nat :: n < USER_PAGES ==> (n in img <==> Place(r, Path(n)) in at))
    && (forall n: nat :: n in img ==> at[Place(r, Path(n))] in mem && mem[at[Place(r, Path(n))]] == DataPage(img[n]))
  }

  /** The byte of an image at an address. */
  function At(img: Image, va: nat): byte
    requires ImageOk(img) && va / 4096 in img
  {
    img[va / 4096][va % 4096]
  }

  // ----- pages -----

  lemma ShowsMapped(m0: Memory, a0: Layout, mem: Memory, at: Layout, r: nat, img: Image, n: nat)
    requires Shape(m0, a0) && Shape(mem, at) && Shows(m0, a0, r, img) && n < USER_PAGES
    requires SamePages(m0, a0, mem, at, {Place(r, Path(n))})
    requires Place(r, Path(n)) in at && at[Place(r, Path(n))] in mem && mem[at[Place(r, Path(n))]] == ZeroPage()
    ensures Shows(mem, at, r, img[n := ZeroPage().bytes])
  {
    hide Shape, Path, ZeroPage, Pte;
    var img' := img[n := ZeroPage().bytes];
    forall k: nat | k < USER_PAGES
      ensures (k in img' <==> Place(r, Path(k)) in at)
      ensures k in img' ==> at[Place(r, Path(k))] in mem && mem[at[Place(r, Path(k))]] == DataPage(img'[k])
    {
      if k != n {
        if Path(k) == Path(n) {
          PathUnique(k, n);
        }
        assert Place(r, Path(k)) !in {Place(r, Path(n))};
        if Place(r, Path(k)) in at {
          InMemory(mem, at, Place(r, Path(k)));
        }
      }
    }
  }

  /** The pages [a, b) are there; those that were missing are zero. */
  ghost predicate Filled(img: Image, img': Image, a: nat, b: nat) {
    && ImageOk(img')
    && (forall n :: n in img' <==> n in img || a <= n < b)
    && (forall n :: n in img' ==> img'[n] == if n in img then img[n] else ZeroPage().bytes)
  }

  lemma BesideSelf(mem: Memory, at: Layout, r: nat)
    requires Shape(mem, at)
    ensures Beside(mem, at, mem, at, r)
  {
    hide NodeOk, EntryAgrees, Pte;
    forall q | q in at ensures at[q] in mem {
      InMemory(mem, at, q);
    }
  }

  lemma BesideTrans(m0: Memory, a0: Layout, m1: Memory, a1: Layout, m2: Memory, a2: Layout, r: nat)
    requires Beside(m0, a0, m1, a1, r) && Beside(m1, a1, m2, a2, r)
    ensures Beside(m0, a0, m2, a2, r)
  {
    hide Shape, Pte;
  }

  lemma BesideMapped(m0: Memory, a0: Layout, mem: Memory, at: Layout, pl: Place)
    requires Shape(m0, a0) && Shape(mem, at) && pl !in a0
    requires SamePages(m0, a0, mem, at, {pl}) && GrewTables(a0, at - {pl}, pl.root, pl.path)
    ensures Beside(m0, a0, mem, at, pl.root) && forall q :: q in a0 ==> q in at
  {
    hide Shape, Pte;
    forall q | q in a0 && |q.path| == 4 ensures a0[q] in m0 && a0[q] in mem {
      InMemory(m0, a0, q);
      InMemory(mem, at, q);
    }
  }

  /** Map the missing pages of a range to zeroed frames. */
  method MapRange(m: Machine, root: nat, first: nat, last: nat, ghost img: Image)
    returns (r: Outcome, ghost img': Image)
    requires m.Inv() && Place(root, []) in m.at && Shows(m.mem, m.at, root, img) && first <= last <= USER_PAGES
    modifies m, m.frames, m.frames.bitmap
    ensures m.Inv()
    ensures r != Panic ==>
      && m.other == old(m.other) && Place(root, []) in m.at && Shows(m.mem, m.at, root, img')
      && Beside(old(m.mem), old(m.at), m.mem, m.at, root)
    ensures r == Done ==> Filled(img, img', first, last)
    ensures r == NoMemory ==> Full(m.frames.InUse())
    ensures r == Panic ==> NoLow(m.frames.InUse())
  {
    hide Accounted, Flags, SamePages, Shape, Beside, Path, PathOk, GrewTables, ZeroPage, Full, NoLow;
    ghost var m0, a0 := m.mem, m.at;
    BesideSelf(m0, a0, root);
    var n := first;
    img' := img;
    while n < last
      invariant first <= n <= last && m.Inv() && m.other == old(m.other) && Place(root, []) in m.at
      invariant Shows(m.mem, m.at, root, img') && Filled(img, img', first, n)
      invariant Beside(m0, a0, m.mem, m.at, root)
    {
      var f := m.GetPhysical(root, Path(n));
      if f == 0 {
        ghost var m1, a1, pl := m.mem, m.at, Place(root, Path(n));
        assert a1 - {pl} == a1 && m.other + Held(a1, pl) == m.other;
        r := MapZeroed(m, root, Path(n), WRITE | USER, false);
        if r != Done {
          return;
        }
        BesideMapped(m1, a1, m.mem, m.at, pl);
        BesideTrans(m0, a0, m1, a1, m.mem, m.at, root);
        ShowsMapped(m1, a1, m.mem, m.at, root, img', n);
        img' := img'[n := ZeroPage().bytes];
      }
      n := n + 1;
    }
    r := Done;
  }

  // ----- the user stack -----

  const STACK_TOP := 0x800    // the page above the stack, at 8 MiB
  const STACK_PAGES := 4

  /** The topmost n stack pages of an address space. */
  ghost function StackPlaces(root: nat, n: nat): (s: set<Place>)
    requires n <= STACK_PAGES
  {
    if n == 0 then {} else StackPlaces(root, n - 1) + {Place(root, Path(STACK_TOP - n))}
  }

  /** The frames that those pages had. */
  ghost function StackFrames(at: Layout, root: nat, n: nat): (s: set<nat>)
    requires n <= STACK_PAGES
  {
    if n == 0 then {} else StackFrames(at, root, n - 1) + Held(at, Place(root, Path(STACK_TOP - n)))
  }

  /** The image with its topmost n stack pages zero. */
  ghost function Stacked(img: Image, n: nat): (r: Image)
    requires n <= STACK_PAGES
  {
    if n == 0 then img else Stacked(img, n - 1)[STACK_TOP - n := ZeroPage().bytes]
  }

  lemma {:induction false} StackPlace(root: nat, n: nat, k: nat)
    requires n <= STACK_PAGES && k < USER_PAGES && (k < STACK_TOP - n || STACK_TOP <= k)
    ensures Place(root, Path(k)) !in StackPlaces(root, n)
  {
    hide Path;
    if n > 0 {
      StackPlace(root, n - 1, k);
      if Path(k) == Path(STACK_TOP - n) {
        PathUnique(k, STACK_TOP - n);
      }
    }
  }

  lemma {:induction false} StackFramesApart(at: Layout, inUse: seq<bool>, other: set<nat>, root: nat, n: nat)
    requires Accounted(at, inUse, other) && n <= STACK_PAGES
    ensures StackFrames(at, root, n) !! other
  {
    hide Path, Accounted;
    if n > 0 {
      StackFramesApart(at, inUse, other, root, n - 1);
      LostApart(at, inUse, other, Place(root, Path(STACK_TOP - n)));
    }
  }

  /** Nothing is lost if and only if no page of the image lay where the stack goes. */
  lemma {:induction false} StackFramesNone(mem: Memory, at: Layout, root: nat, img: Image, n: nat)
    requires Shows(mem, at, root, img) && n <= STACK_PAGES
    ensures StackFrames(at, root, n) == {} <==> forall k: nat :: STACK_TOP - n <= k < STACK_TOP ==> k !in img
  {
    hide Path;
    if n > 0 {
      StackFramesNone(mem, at, root, img, n - 1);
      assert STACK_TOP - n in img <==> Place(root, Path(STACK_TOP - n)) in at;
    }
  }

  lemma SamePagesMore(
    m0: Memory, a0: Layout, m1: Memory, a1: Layout, m2: Memory, a2: Layout, but: set<Place>, pl: Place)
    requires Shape(m0, a0) && Shape(m1, a1) && Shape(m2, a2)
    requires SamePages(m0, a0, m1, a1, but) && SamePages(m1, a1, m2, a2, {pl})
    ensures SamePages(m0, a0, m2, a2, but + {pl})
  {
    hide Shape, Pte;
  }

  lemma SameHeld(m0: Memory, a0: Layout, m1: Memory, a1: Layout, but: set<Place>, pl: Place)
    requires Shape(m0, a0) && Shape(m1, a1) && SamePages(m0, a0, m1, a1, but) && |pl.path| == 4 && pl !in but
    ensures Held(a1, pl) == Held(a0, pl)
  {
    hide Shape, Pte;
  }

  /** Set up the user stack, as spawn and exec do: four zeroed pages below 8 MiB,
      without a look at what was mapped there. The frames of pages of the image that
      lay there are lost, so that none is lost if and only if there was no such page. */
  method MapStack(m: Machine, root: nat, ghost img: Image) returns (r: Outcome)
    requires m.Inv() && Place(root, []) in m.at && Shows(m.mem, m.at, root, img)
    modifies m, m.frames, m.frames.bitmap
    ensures m.Inv()
    ensures r == Done ==>
      && Shows(m.mem, m.at, root, Stacked(img, STACK_PAGES))
      && SamePages(old(m.mem), old(m.at), m.mem, m.at, StackPlaces(root, STACK_PAGES))
      && m.other == old(m.other) + StackFrames(old(m.at), root, STACK_PAGES)
      && (m.other == old(m.other) <==> forall k: nat :: STACK_TOP - STACK_PAGES <= k < STACK_TOP ==> k !in img)
    ensures r == NoMemory ==> Full(m.frames.InUse())
    ensures r == Panic ==> NoLow(m.frames.InUse())
  {
    hide Accounted, Flags, SamePages, Shape, Path, PathOk, GrewTables, ZeroPage, Full, NoLow, Held, Shows, StackPlaces,
      StackFrames, Stacked, Mapping;
    ghost var m0, a0, o0 := m.mem, m.at, m.other;
    StackFramesApart(a0, m.frames.InUse(), o0, root, STACK_PAGES);
    StackFramesNone(m0, a0, root, img, STACK_PAGES);
    SamePagesSelf(m0, a0);
    StackStart(a0, root, img);
    assert o0 + {} == o0;
    var n := 0;
    while n < STACK_PAGES
      invariant 0 <= n <= STACK_PAGES && m.Inv() && Place(root, []) in m.at
      invariant Shows(m.mem, m.at, root, Stacked(img, n)) && m.other == o0 + StackFrames(a0, root, n)
      invariant SamePages(m0, a0, m.mem, m.at, StackPlaces(root, n))
    {
      ghost var m1, a1, pl, o1 := m.mem, m.at, Place(root, Path(STACK_TOP - (n + 1))), m.other;
      StackPlace(root, n, STACK_TOP - (n + 1));
      SameHeld(m0, a0, m1, a1, StackPlaces(root, n), pl);
      r := MapZeroed(m, root, Path(STACK_TOP - (n + 1)), WRITE | USER, false);
      if r != Done {
        return;
      }
      ShowsMapped(m1, a1, m.mem, m.at, root, Stacked(img, n), STACK_TOP - (n + 1));
      SamePagesMore(m0, a0, m1, a1, m.mem, m.at, StackPlaces(root, n), pl);
      RootStays(a1, m.at, pl);
      StackStep(a0, root, img, n);
      assert o0 + StackFrames(a0, root, n) + Held(a0, pl) == o0 + (StackFrames(a0, root, n) + Held(a0, pl));
      n := n + 1;
    }
    r := Done;
    NothingMore(o0, StackFrames(a0, root, STACK_PAGES));
  }

  lemma StackStart(at: Layout, root: nat, img: Image)
    ensures StackPlaces(root, 0) == {} && StackFrames(at, root, 0) == {} && Stacked(img, 0) == img
  {
  }

  lemma StackStep(at: Layout, root: nat, img: Image, n: nat)
    requires n < STACK_PAGES
    ensures StackPlaces(root, n + 1) == StackPlaces(root, n) + {Place(root, Path(STACK_TOP - (n + 1)))}
    ensures StackFrames(at, root, n + 1) == StackFrames(at, root, n) + Held(at, Place(root, Path(STACK_TOP - (n + 1))))
    ensures Stacked(img, n + 1) == Stacked(img, n)[STACK_TOP - (n + 1) := ZeroPage().bytes]
  {
  }

  lemma RootStays(at: Layout, at': Layout, pl: Place)
    requires GrewTables(at - {pl}, at' - {pl}, pl.root, pl.path) && |pl.path| == 4 && Place(pl.root, []) in at
    ensures Place(pl.root, []) in at'
  {
    assert Place(pl.root, []) in at - {pl};
  }

  lemma NothingMore(a: set<nat>, b: set<nat>)
    requires b !! a
    ensures a + b == a <==> b == {}
  {
    if b != {} {
      var x :| x in b;
      assert x in a + b;
    }
  }

  // ----- bytes -----

  lemma ShowsWritten(mem: Memory, at: Layout, r: nat, img: Image, n: nat, bytes: seq<byte>)
    requires Shape(mem, at) && Shows(mem, at, r, img) && n in img && |bytes| == 4096
    ensures var mem' := mem[at[Place(r, Path(n))] := DataPage(bytes)];
      Shape(mem', at) && Shows(mem', at, r, img[n := bytes]) && Beside(mem, at, mem', at, r)
  {
    hide Shape, Path, Pte;
    var pl := Place(r, Path(n));
    var mem', img' := mem[at[pl] := DataPage(bytes)], img[n := bytes];
    WritesPrivate(mem, at, pl, bytes);
    forall k: nat | k in img'
      ensures at[Place(r, Path(k))] in mem' && mem'[at[Place(r, Path(k))]] == DataPage(img'[k])
    {
      if k != n && at[Place(r, Path(k))] == at[pl] {
        OneNode(mem, at, Place(r, Path(k)), pl);
        PathUnique(k, n);
      }
    }
    forall q | q in at ensures at[q] in mem {
      InMemory(mem, at, q);
    }
  }

  /** img' is img with the bytes src placed at va; all pages stay. */
  ghost predicate Placed(img: Image, img': Image, va: nat, src: seq<byte>) {
    && ImageOk(img) && ImageOk(img') && img'.Keys == img.Keys
    && forall x: nat :: x / 4096 in img ==> At(img', x) == if va <= x < va + |src| then src[x - va] else At(img, x)
  }

  lemma PlacedPage(img: Image, va: nat, chunk: seq<byte>)
    requires ImageOk(img) && va / 4096 in img && va % 4096 + |chunk| <= 4096
    ensures var page, off := img[va / 4096], va % 4096;
      Placed(img, img[va / 4096 := page[..off] + chunk + page[off + |chunk|..]], va, chunk)
  {
    var page, off, n := img[va / 4096], va % 4096, va / 4096;
    var page' := page[..off] + chunk + page[off + |chunk|..];
    var img' := img[n := page'];
    forall x: nat | x / 4096 in img
      ensures At(img', x) == if va <= x < va + |chunk| then chunk[x - va] else At(img, x)
    {
      if x / 4096 == n {
        assert x - va == x % 4096 - off;
      }
    }
  }

  lemma PlacedTrans(img: Image, img1: Image, img2: Image, va: nat, src: seq<byte>, k: nat, c: nat)
    requires k + c <= |src| && Placed(img, img1, va, src[..k]) && Placed(img1, img2, va + k, src[k..k + c])
    ensures Placed(img, img2, va, src[..k + c])
  {
    forall x: nat | x / 4096 in img
      ensures At(img2, x) == if va <= x < va + k + c then src[..k + c][x - va] else At(img, x)
    {
    }
  }

  lemma PlacedNone(img: Image, va: nat)
    requires ImageOk(img)
    ensures Placed(img, img, va, [])
  {
  }

  /** One step of the byte loops: write within a single page, through the frame
      it is mapped to. */
  method PutChunk(m: Machine, root: nat, va: nat, bytes: seq<byte>, ghost img: Image)
    returns (ok: bool, ghost img': Image)
    requires m.Inv() && Place(root, []) in m.at && Shows(m.mem, m.at, root, img)
    requires va / 4096 < USER_PAGES && va % 4096 + |bytes| <= 4096
    modifies m`mem
    ensures m.Inv() && Shows(m.mem, m.at, root, img') && Beside(old(m.mem), m.at, m.mem, m.at, root)
    ensures (ok <==> va / 4096 in img) && (!ok ==> img' == img) && (ok ==> Placed(img, img', va, bytes))
  {
    hide Accounted, Flags, Count, SamePages, Shape, Beside, Path, PathOk, Placed, Shows;
    var n, off := va / 4096, va % 4096;
    var frame := m.GetPhysical(root, Path(n));
    BesideSelf(m.mem, m.at, root);
    ShownIff(m.mem, m.at, root, img, n);
    if frame == 0 {
      return false, img;
    }
    Shown(m.mem, m.at, root, img, n);
    var page := m.mem[frame].bytes;
    var page' := page[..off] + bytes + page[off + |bytes|..];
    ShowsWritten(m.mem, m.at, root, img, n, page');
    PlacedPage(img, va, bytes);
    m.mem := m.mem[frame := DataPage(page')];
    return true, img[n := page'];
  }

  /** Copy bytes to an address range, page by page, up to the first page that is
      not mapped. */
  method WriteInto(m: Machine, root: nat, va: nat, src: seq<byte>, ghost img: Image)
    returns (ghost img': Image, ghost k: nat)
    requires m.Inv() && Place(root, []) in m.at && Shows(m.mem, m.at, root, img) && va + |src| <= 4096 * USER_PAGES
    modifies m`mem
    ensures m.Inv() && Shows(m.mem, m.at, root, img') && Beside(old(m.mem), m.at, m.mem, m.at, root)
    ensures k <= |src| && Placed(img, img', va, src[..k])
    ensures k < |src| ==> (va + k) / 4096 !in img
  {
    hide Accounted, Flags, SamePages, Shape, Beside, Path, PathOk, Placed, Shows;
    ghost var m0 := m.mem;
    img' := img;
    var done := 0;
    BesideSelf(m0, m.at, root);
    ShowsOk(m.mem, m.at, root, img);
    PlacedNone(img, va);
    while done < |src|
      invariant 0 <= done <= |src| && m.Inv() && Shows(m.mem, m.at, root, img') && Beside(m0, m.at, m.mem, m.at, root)
      invariant Placed(img, img', va, src[..done]) && img'.Keys == img.Keys
    {
      ghost var m1, img1 := m.mem, img';
      var off := (va + done) % 4096;
      var chunk := if 4096 - off > |src| - done then |src| - done else 4096 - off;
      var ok;
      ok, img' := PutChunk(m, root, va + done, src[done..done + chunk], img');
      BesideTrans(m0, m.at, m1, m.at, m.mem, m.at, root);
      if !ok {
        return img', done;
      }
      PlacedTrans(img, img1, img', va, src, done, chunk);
      PlacedKeys(img1, img', va + done, src[done..done + chunk]);
      done := done + chunk;
    }
    assert src[..done] == src;
    k := done;
  }

  lemma ShownIff(mem: Memory, at: Layout, r: nat, img: Image, n: nat)
    requires Shows(mem, at, r, img) && n < USER_PAGES
    ensures n in img <==> Place(r, Path(n)) in at
  {
  }

  lemma Shown(mem: Memory, at: Layout, r: nat, img: Image, n: nat)
    requires Shows(mem, at, r, img) && n in img
    ensures ImageOk(img) && Place(r, Path(n)) in at
    ensures at[Place(r, Path(n))] in mem && mem[at[Place(r, Path(n))]] == DataPage(img[n]) && |img[n]| == 4096
  {
  }

  lemma PlacedKeys(img: Image, img': Image, va: nat, src: seq<byte>)
    requires Placed(img, img', va, src)
    ensures img'.Keys == img.Keys
  {
  }

  lemma ShowsOk(mem: Memory, at: Layout, r: nat, img: Image)
    requires Shows(mem, at, r, img)
    ensures ImageOk(img)
  {
  }

  /** Clear an address range, page by page, up to the first page that is not
      mapped. */
  method ZeroInto(m: Machine, root: nat, va: nat, n: nat, ghost img: Image) returns (ghost img': Image, ghost k: nat)
    requires m.Inv() && Place(root, []) in m.at && Shows(m.mem, m.at, root, img) && va + n <= 4096 * USER_PAGES
    modifies m`mem
    ensures m.Inv() && Shows(m.mem, m.at, root, img') && Beside(old(m.mem), m.at, m.mem, m.at, root)
    ensures k <= n && Placed(img, img', va, Zeros(k))
    ensures k < n ==> (va + k) / 4096 !in img
  {
    hide Accounted, Flags, SamePages, Shape, Beside, Path, PathOk, Placed, Shows, Zeros;
    ghost var m0 := m.mem;
    img' := img;
    var done := 0;
    BesideSelf(m0, m.at, root);
    ShowsOk(m.mem, m.at, root, img);
    PlacedNone(img, va);
    assert Zeros(0) == [];
    while done < n
      invariant 0 <= done <= n && m.Inv() && Shows(m.mem, m.at, root, img') && Beside(m0, m.at, m.mem, m.at, root)
      invariant Placed(img, img', va, Zeros(done)) && img'.Keys == img.Keys
    {
      ghost var m1, img1 := m.mem, img';
      var off := (va + done) % 4096;
      var chunk := if 4096 - off > n - done then n - done else 4096 - off;
      var ok;
      ok, img' := PutChunk(m, root, va + done, Zeros(chunk), img');
      BesideTrans(m0, m.at, m1, m.at, m.mem, m.at, root);
      if !ok {
        return img', done;
      }
      assert Zeros(n)[..done] == Zeros(done) && Zeros(n)[done..done + chunk] == Zeros(chunk);
      PlacedTrans(img, img1, img', va, Zeros(n), done, chunk);
      PlacedKeys(img1, img', va + done, Zeros(chunk));
      done := done + chunk;
      assert Zeros(n)[..done] == Zeros(done);
    }
    k := done;
  }
}
