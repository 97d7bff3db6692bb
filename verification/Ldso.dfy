/**
 The dynamic linker: the closure of needed libraries, their load regions, symbol
 resolution in load order, and relocation.
 */
module Ldso {
  const W64 := 0x1_0000_0000_0000_0000
  const MAX_LIBS := 8
  const REGION_START := 0x3000_0000
  const REGION_END := 0x3FFF_FFFF
  const PATH_SIZE := 128

  datatype Sym = Sym(name: string, named: bool, defined: bool, kind: nat, value: nat)

  datatype RelocKind = Relative | Slot | Word | Disp32 | Copy(size: nat) | Other

  /** sym is the symbol name, if its index and name are in range. */
  datatype Reloc = Reloc(kind: RelocKind, offset: nat, addend: int, hasName: bool, sym: string)

  /** A shared object file; `intact` when its segments can be read and it has a
      dynamic section. */
  datatype So = So(intact: bool, minV: nat, span: nat, needed: seq<string>, syms: seq<Sym>, relocs: seq<Reloc>)

  datatype Obj = Obj(path: string, region: nat, so: So)

  function Base(o: Obj): int { o.region - o.so.minV }

  // ----- names -----

  /** The part of a path after the last slash. */
  function BaseName(p: string): string {
    if p == "" || p[|p| - 1] == '/' then "" else BaseName(p[..|p| - 1]) + [p[|p| - 1]]
  }

  /** A dependency name that fits its buffer and has no directory part. */
  predicate Plain(name: string) { '/' !in name && |name| <= PATH_SIZE - 1 - 5 }

  function LibPath(name: string): string {
    var p := "/lib/" + name;
    if |p| > PATH_SIZE - 1 then p[..PATH_SIZE - 1] else p
  }

  lemma {:induction false} BaseNameOf(dir: string, name: string)
    requires '/' !in name && dir != "" && dir[|dir| - 1] == '/'
    ensures BaseName(dir + name) == name
  {
    var p := dir + name;
    if name != "" {
      var n := |name| - 1;
      assert p[..|p| - 1] == dir + name[..n] && p[|p| - 1] == name[n];
      assert name[n] in name;
      BaseNameOf(dir, name[..n]);
      assert name == name[..n] + [name[n]];
    } else {
      assert p == dir;
    }
  }

  lemma LibPathName(name: string)
    requires Plain(name)
    ensures LibPath(name) == "/lib/" + name && BaseName(LibPath(name)) == name
  {
    BaseNameOf("/lib/", name);
  }

  // ----- the closure -----

  type Files = map<string, So>

  function NeededBy(files: Files, name: string): seq<string> {
    if LibPath(name) in files then files[LibPath(name)].needed else []
  }

  /** A chain of dependencies from one of the given names. */
  ghost predicate Chain(files: Files, from: seq<string>, path: seq<string>) {
    && path != [] && path[0] in from
    && forall i :: 0 <= i && i + 1 < |path| ==> path[i + 1] in NeededBy(files, path[i])
  }

  ghost predicate Reaches(files: Files, from: seq<string>, name: string) {
    exists path :: Chain(files, from, path) && path[|path| - 1] == name
  }

  lemma ReachDirect(files: Files, from: seq<string>, name: string)
    requires name in from
    ensures Reaches(files, from, name)
  {
    assert Chain(files, from, [name]) && [name][|[name]| - 1] == name;
  }

  lemma ReachThrough(files: Files, from: seq<string>, via: string, name: string)
    requires via in from && Reaches(files, NeededBy(files, via), name)
    ensures Reaches(files, from, name)
  {
    var path :| Chain(files, NeededBy(files, via), path) && path[|path| - 1] == name;
    var long := [via] + path;
    assert Chain(files, from, long) && long[|long| - 1] == name;
  }

  /** A set that holds the names and is closed under dependencies holds all that
      they reach. */
  lemma {:induction false} ClosedHolds(files: Files, from: seq<string>, s: set<string>, path: seq<string>)
    requires (forall n :: n in from ==> n in s) && (forall n, m :: n in s && m in NeededBy(files, n) ==> m in s)
    requires Chain(files, from, path)
    ensures path[|path| - 1] in s
  {
    if |path| > 1 {
      var p := path[..|path| - 1];
      assert Chain(files, from, p);
      ClosedHolds(files, from, s, p);
      assert path[|path| - 2] == p[|p| - 1];
    }
  }

  // ----- resolution -----

  predicate Defines(s: Sym, name: string) { s.defined && s.named && (s.kind == 1 || s.kind == 2) && s.name == name }

  ghost predicate FirstDefined(o: Obj, name: string, j: int) {
    0 <= j < |o.so.syms| && Defines(o.so.syms[j], name) && forall i :: 0 <= i < j ==> !Defines(o.so.syms[i], name)
  }

  /** The address of the first definition in one object, or 0. */
  ghost function LookupIn(o: Obj, name: string, k: nat): nat
    requires k <= |o.so.syms|
    decreases |o.so.syms| - k
  {
    if k == |o.so.syms| then 0
    else if Defines(o.so.syms[k], name) then (Base(o) + o.so.syms[k].value) % W64
    else LookupIn(o, name, k + 1)
  }

  /** The first non-zero address along a list of objects, or 0. */
  ghost function FirstIn(objs: seq<Obj>, name: string): nat {
    if objs == [] then 0
    else if LookupIn(objs[0], name, 0) != 0 then LookupIn(objs[0], name, 0)
    else FirstIn(objs[1..], name)
  }

  /** Objects loaded later never change how a name already resolves. */
  lemma {:induction false} ResolutionStable(objs: seq<Obj>, more: seq<Obj>, name: string)
    requires FirstIn(objs, name) != 0
    ensures FirstIn(objs + more, name) == FirstIn(objs, name)
  {
    if objs != [] {
      assert (objs + more)[0] == objs[0] && (objs + more)[1..] == objs[1..] + more;
      if LookupIn(objs[0], name, 0) == 0 {
        ResolutionStable(objs[1..], more, name);
      }
    }
  }

  method Lookup(o: Obj, name: string) returns (a: nat)
    ensures a == LookupIn(o, name, 0)
    ensures forall j :: FirstDefined(o, name, j) ==> a == (Base(o) + o.so.syms[j].value) % W64
    ensures (forall j :: 0 <= j < |o.so.syms| ==> !Defines(o.so.syms[j], name)) ==> a == 0
  {
    var j := 0;
    while j < |o.so.syms|
      invariant 0 <= j <= |o.so.syms| && LookupIn(o, name, 0) == LookupIn(o, name, j)
      invariant forall i :: 0 <= i < j ==> !Defines(o.so.syms[i], name)
    {
      if Defines(o.so.syms[j], name) {
        return (Base(o) + o.so.syms[j].value) % W64;
      }
      j := j + 1;
    }
    return 0;
  }

  // ----- the linker -----

  ghost function Names(libs: seq<Obj>): (r: set<string>)
    ensures forall n :: n in r <==> exists i :: 0 <= i < |libs| && BaseName(libs[i].path) == n
  {
    set i | 0 <= i < |libs| :: BaseName(libs[i].path)
  }

  ghost predicate Covered(needed: seq<string>, libs: seq<Obj>) {
    forall n :: n in needed ==> n in Names(libs)
  }

  /** Each library is a file, loaded once, in a region of its own. */
  ghost predicate LibsOk(files: Files, libs: seq<Obj>, next: nat) {
    && |libs| <= MAX_LIBS && REGION_START <= next <= 0x4000_0000
    && (forall i :: 0 <= i < |libs| ==> LibOk(files, libs[i]) && libs[i].region + libs[i].so.span <= next)
    && (forall i, j :: 0 <= i < j < |libs| ==>
        BaseName(libs[i].path) != BaseName(libs[j].path) && libs[i].region + libs[i].so.span <= libs[j].region)
  }

  ghost predicate LibOk(files: Files, o: Obj) {
    && o.path in files && files[o.path] == o.so
    && REGION_START <= o.region && o.region + o.so.span <= REGION_END
  }

  /** Dependency names are plain, and images are no larger than an address. */
  ghost predicate FilesOk(files: Files) {
    forall p :: p in files ==> files[p].span < W64 / 2 && forall n :: n in files[p].needed ==> Plain(n)
  }

  /** The files and the addresses at which the kernel refuses to map. */
  datatype World = World(files: Files, refused: set<nat>)

  /** A file can be given space at an address. */
  predicate Mappable(w: World, path: string, at: nat) {
    path in w.files && at + w.files[path].span <= REGION_END && at !in w.refused
  }

  predicate Loadable(w: World, path: string, at: nat) { Mappable(w, path, at) && w.files[path].intact }

  function MegabyteUp(a: nat): (r: nat)
    ensures a <= r < a + 0x10_0000
  {
    (a + 0xF_FFFF) / 0x10_0000 * 0x10_0000
  }

  /** Why loading ended: something needed is not there and cannot be loaded. */
  ghost predicate Stuck(w: World, needed: seq<string>, libs: seq<Obj>, next: nat) {
    exists n :: Reaches(w.files, needed, n) && Blocked(w, libs, next, n)
  }

  ghost predicate Blocked(w: World, libs: seq<Obj>, next: nat, n: string) {
    n !in Names(libs) && (|libs| >= MAX_LIBS || !Loadable(w, LibPath(n), next))
  }

  lemma StuckBy(w: World, needed: seq<string>, name: string, libs: seq<Obj>, next: nat)
    requires Stuck(w, [name], libs, next) && name in needed
    ensures Stuck(w, needed, libs, next)
  {
    hide Blocked;
    var n :| Reaches(w.files, [name], n) && Blocked(w, libs, next, n);
    var path :| Chain(w.files, [name], path) && path[|path| - 1] == n;
    assert Chain(w.files, needed, path);
  }

  lemma StuckThrough(w: World, name: string, libs: seq<Obj>, next: nat)
    requires Stuck(w, NeededBy(w.files, name), libs, next)
    ensures Stuck(w, [name], libs, next)
  {
    hide Blocked, Reaches, NeededBy;
    var n :| Reaches(w.files, NeededBy(w.files, name), n) && Blocked(w, libs, next, n);
    ReachThrough(w.files, [name], name, n);
  }

  lemma StuckHere(w: World, name: string, libs: seq<Obj>, next: nat)
    requires Blocked(w, libs, next, name)
    ensures Stuck(w, [name], libs, next)
  {
    ReachDirect(w.files, [name], name);
  }

  class Linker {
    const world: World
    const files: Files := world.files
    const main: Obj
    var libs: seq<Obj>
    var next: nat
    var mem: Memory

    ghost predicate Valid()
      reads this
    {
      FilesOk(files) && LibsOk(files, libs, next)
    }

    constructor (world: World, main: Obj, mem: Memory)
      requires FilesOk(world.files)
      ensures Valid() && libs == [] && this.world == world && this.main == main && this.mem == mem
    {
      this.world := world;
      this.main := main;
      this.mem := mem;
      libs, next := [], REGION_START;
    }

    method AlreadyLoaded(name: string) returns (b: bool)
      ensures b <==> name in Names(libs)
    {
      var i := 0;
      while i < |libs|
        invariant 0 <= i <= |libs| && forall j :: 0 <= j < i ==> BaseName(libs[j].path) != name
      {
        if BaseName(libs[i].path) == name {
          return true;
        }
        i := i + 1;
      }
      return false;
    }

    /** Map a file into the next region. The space of a file that then cannot be
        read is not used again. */
    method LoadSo(path: string) returns (ok: bool, o: Obj)
      requires FilesOk(files) && next <= 0x4000_0000
      modifies this`next
      ensures ok <==> Loadable(world, path, old(next))
      ensures ok ==> o == Obj(path, old(next), files[path])
      ensures next == if Mappable(world, path, old(next)) then MegabyteUp(old(next) + files[path].span) else old(next)
      ensures old(next) <= next <= 0x4000_0000
    {
      o := Obj(path, next, So(false, 0, 0, [], [], []));
      ok := false;
      if path in files {
        var so := files[path];
        var end := (next + so.span) % W64;
        if end <= REGION_END && next !in world.refused {
          o := Obj(path, next, so);
          next := MegabyteUp(end);
          ok := so.intact;
        }
      }
    }

    /** Load what an object needs, and what that needs. The libraries loaded are
        exactly those reachable that were not there before. */
    method LoadNeeded(needed: seq<string>) returns (ok: bool)
      requires Valid() && forall n :: n in needed ==> Plain(n)
      modifies this`libs, this`next
      ensures Valid() && old(libs) <= libs
      ensures ok ==> Covered(needed, libs)
      ensures ok ==> forall i :: |old(libs)| <= i < |libs| ==> Pulled(files, needed, libs, libs[i])
      ensures !ok ==> Stuck(world, needed, libs, next)
      decreases MAX_LIBS - |libs|
    {
      hide Names, BaseName, LibPath, Reaches, Plain, LibOk, Covered, Pulled, Stuck;
      ghost var libs0 := libs;
      var d := 0;
      CoveredNone(libs);
      while d < |needed|
        invariant 0 <= d <= |needed| && Valid() && libs0 <= libs
        invariant Covered(needed[..d], libs)
        invariant forall i :: |libs0| <= i < |libs| ==> Pulled(files, needed, libs, libs[i])
      {
        ghost var libs1 := libs;
        var loaded := AlreadyLoaded(needed[d]);
        if !loaded {
          ok := LoadOne(needed[d]);
          if !ok {
            StuckBy(world, needed, needed[d], libs, next);
            return;
          }
          forall i | |libs0| <= i < |libs| ensures Pulled(files, needed, libs, libs[i]) {
            if i < |libs1| {
              PulledMore(files, needed, libs1, libs, libs[i]);
            } else {
              PulledBy(files, needed, needed[d], libs, libs[i]);
            }
          }
        }
        CoveredStep(needed, d, libs1, libs);
        d := d + 1;
      }
      assert needed[..|needed|] == needed;
      ok := true;
    }

    /** Load one library and what it needs. */
    method LoadOne(name: string) returns (ok: bool)
      requires Valid() && Plain(name) && name !in Names(libs)
      modifies this`libs, this`next
      ensures Valid() && old(libs) <= libs
      ensures ok ==> name in Names(libs)
      ensures ok ==> forall i :: |old(libs)| <= i < |libs| ==> Pulled(files, [name], libs, libs[i])
      ensures !ok ==> Stuck(world, [name], libs, next)
      decreases MAX_LIBS - |libs|, 0
    {
      hide BaseName, LibPath, Reaches, Plain, Covered, Pulled, Names, Stuck, MegabyteUp;
      if |libs| >= MAX_LIBS {
        StuckHere(world, name, libs, next);
        return false;
      }
      var o;
      ghost var next0 := next;
      ok, o := LoadSo(LibPath(name));
      if !ok {
        assert !Loadable(world, LibPath(name), next);
        StuckHere(world, name, libs, next);
        return;
      }
      ghost var libs0 := libs;
      LibPathName(name);
      Extended(files, libs0, o, next);
      libs := libs + [o];
      ghost var libs1 := libs;
      ok := LoadNeeded(o.so.needed);
      if ok {
        NamesMore(libs1, libs, name);
        assert libs[|libs0|] == o;
        forall i | |libs0| <= i < |libs| ensures Pulled(files, [name], libs, libs[i]) {
          if i == |libs0| {
            PulledFirst(files, name, libs, o);
          } else {
            PulledThrough(files, name, libs, libs[i]);
          }
        }
      } else {
        StuckThrough(world, name, libs, next);
      }
    }

    /** Load everything the program needs: on success exactly the reachable
        libraries are there, once each. Cyclic dependencies end. */
    method LoadProgram() returns (ok: bool)
      requires Valid() && libs == [] && forall n :: n in main.so.needed ==> Plain(n)
      modifies this`libs, this`next
      ensures Valid() && (ok ==> forall n :: n in Names(libs) <==> Reaches(files, main.so.needed, n))
      ensures !ok ==> Stuck(world, main.so.needed, libs, next)
    {
      hide BaseName, LibPath, Plain, LibsOk, Names, Stuck;
      ok := LoadNeeded(main.so.needed);
      if ok {
        ExactlyReachable(files, main.so.needed, libs);
      }
    }

    /** The first definition of a name: the program, then the libraries in order. */
    method Resolve(name: string) returns (a: nat)
      ensures a == FirstIn([main] + libs, name)
    {
      a := Lookup(main, name);
      assert ([main] + libs)[1..] == libs[0..];
      var i := 0;
      while a == 0 && i < |libs|
        invariant 0 <= i <= |libs|
        invariant FirstIn([main] + libs, name) == if a != 0 then a else FirstIn(libs[i..], name)
      {
        a := Lookup(libs[i], name);
        assert libs[i..][1..] == libs[i + 1..];
        i := i + 1;
      }
    }

    /** A name as a library defines it, for copies. */
    method ResolveInLibs(name: string) returns (a: nat)
      ensures a == FirstIn(libs, name)
    {
      a := 0;
      var i := 0;
      assert libs[0..] == libs;
      while a == 0 && i < |libs|
        invariant 0 <= i <= |libs|
        invariant FirstIn(libs, name) == if a != 0 then a else FirstIn(libs[i..], name)
      {
        a := Lookup(libs[i], name);
        assert libs[i..][1..] == libs[i + 1..];
        i := i + 1;
      }
    }

    /** Apply the relocations of one object. An undefined slot or copy source ends
        the program. */
    method ApplyRela(me: Obj, ghost mem0: Memory, ghost jobs: seq<Job>) returns (ok: bool)
      requires mem == Done(mem0, main, libs, jobs)
      modifies this`mem
      ensures ok <==> forall i :: 0 <= i < |me.so.relocs| ==> Bound(main, libs, me.so.relocs[i])
      ensures ok ==> mem == Done(mem0, main, libs, jobs + Jobs(me, |me.so.relocs|))
    {
      hide FirstIn, Jobs, Done, Bound, Effect;
      var rs := me.so.relocs;
      var i := 0;
      JobsNone(me, jobs);
      while i < |rs|
        invariant 0 <= i <= |rs| && mem == Done(mem0, main, libs, jobs + Jobs(me, i))
        invariant forall j :: 0 <= j < i ==> Bound(main, libs, rs[j])
      {
        ok := ApplyOne(me, rs[i]);
        if !ok {
          return;
        }
        JobsStep(me, i, jobs);
        DoneStep(mem0, main, libs, jobs + Jobs(me, i), Job(me, rs[i]));
        i := i + 1;
      }
      ok := true;
    }

    method ApplyOne(me: Obj, r: Reloc) returns (ok: bool)
      modifies this`mem
      ensures ok <==> Bound(main, libs, r)
      ensures mem == if ok then Effect(old(mem), main, libs, Job(me, r)) else old(mem)
    {
      hide FirstIn;
      var w := Where(me, r);
      ok := true;
      match r.kind
      case Relative =>
        mem := SetWord(mem, w, (Base(me) + r.addend) % W64);
      case Slot =>
        if !r.hasName {
          return false;
        }
        var a := Resolve(r.sym);
        if a == 0 {
          return false;
        }
        mem := SetWord(mem, w, a);
      case Word =>
        if r.hasName {
          var a := Resolve(r.sym);
          mem := SetWord(mem, w, (a + r.addend) % W64);
        }
      case Disp32 =>
        if r.hasName {
          mem := Clobber(mem, w, 4);
        }
      case Copy(size) =>
        if r.hasName {
          var src := ResolveInLibs(r.sym);
          if src == 0 {
            return false;
          }
          mem := Clobber(mem, w, size);
        }
      case Other =>
    }

    /** Relocate the libraries from a given one on, in load order. */
    method RelocateFrom(start: nat) returns (ok: bool, ghost jobs: seq<Job>)
      requires start <= |libs|
      modifies this`mem
      ensures jobs == AllJobs(libs, start, |libs|) && (ok <==> AllBound(main, libs, jobs))
      ensures ok ==> mem == Done(old(mem), main, libs, jobs)
    {
      hide FirstIn, Jobs, Bound, Done;
      ghost var mem0 := mem;
      ghost var sofar: seq<Job> := [];
      jobs := AllJobs(libs, start, |libs|);
      DoneNone(mem, main, libs);
      var i := start;
      while i < |libs|
        invariant start <= i <= |libs| && sofar == AllJobs(libs, start, i) && mem == Done(mem0, main, libs, sofar)
        invariant AllBound(main, libs, sofar)
      {
        BoundStep(main, libs, start, i);
        ok := ApplyRela(libs[i], mem0, sofar);
        if !ok {
          return;
        }
        sofar := sofar + Jobs(libs[i], |libs[i].so.relocs|);
        i := i + 1;
      }
      ok := true;
    }

    /** Relocate the libraries, then the program. Every slot that no later
        relocation touches holds the first definition of its name. */
    method RelocateAll() returns (ok: bool, ghost jobs: seq<Job>)
      modifies this`mem
      ensures jobs == AllJobs(libs, 0, |libs|) + Jobs(main, |main.so.relocs|) && (ok <==> AllBound(main, libs, jobs))
      ensures ok ==> mem == Done(old(mem), main, libs, jobs) && Held(mem, [main] + libs, jobs)
    {
      hide FirstIn, Jobs, Bound, Done, Held, AllJobs;
      ghost var mem0 := mem;
      ok, jobs := RelocateFrom(0);
      ghost var all := jobs + Jobs(main, |main.so.relocs|);
      BoundJoin(main, libs, jobs, main);
      if ok {
        ok := ApplyRela(main, mem0, jobs);
      }
      jobs := all;
      if ok {
        DoneHeld(mem0, main, libs, jobs);
      }
    }

    /** Load and relocate the program: on success exactly the reachable libraries are
        there, and every slot of every object holds the first definition of its
        name in the order program, library 0, library 1 and so on. */
    method Link() returns (ok: bool)
      requires Valid() && libs == [] && forall n :: n in main.so.needed ==> Plain(n)
      requires LaidOut()
      modifies this`libs, this`next, this`mem
      ensures Valid()
      ensures ok ==> forall n :: n in Names(libs) <==> Reaches(files, main.so.needed, n)
      ensures ok ==> AllLinked(mem, main, libs)
      ensures !ok ==>
        || Stuck(world, main.so.needed, libs, next)
        || !AllBound(main, libs, AllJobs(libs, 0, |libs|) + Jobs(main, |main.so.relocs|))
    {
      hide BaseName, LibPath, Plain, Names, Stuck, Tidy, Held, Done, AllBound, AllJobs, Jobs, Bindings, Clear, Reaches,
        MainApart;
      ok := LoadProgram();
      if !ok {
        return;
      }
      ghost var jobs;
      ok, jobs := RelocateAll();
      if ok {
        assert forall i :: 0 <= i < |libs| ==> LibOk(files, libs[i]);
        AllSettled(files, main, libs, next);
        ghost var objs, all := [main] + libs, AllJobs(libs, 0, |libs|);
        assert jobs == all + Jobs(main, |main.so.relocs|) + [];
        AllBindings(mem, objs, jobs, all, main, []);
        forall k | 0 <= k < |libs| ensures Bindings(mem, objs, libs[k]) {
          var pre, post := JobsOfOne(libs, 0, |libs|, k);
          assert jobs == pre + Jobs(libs[k], |libs[k].so.relocs|) + (post + Jobs(main, |main.so.relocs|));
          AllBindings(mem, objs, jobs, pre, libs[k], post + Jobs(main, |main.so.relocs|));
        }
      }
    }

    /** Objects laid out as linkers do: relocations in their own image, the program
        outside the region of the libraries. */
    ghost predicate LaidOut()
      reads this
    {
      MainApart(main) && Tidy(main.so) && forall p :: p in files ==> Tidy(files[p])
    }

    /** Open a library at run time. Names that resolved before resolve the same, and a
        linked program stays linked, the new libraries included. */
    method Dlopen(path: string) returns (handle: int, ok: bool)
      requires Valid() && |path| < PATH_SIZE
      modifies this`libs, this`next, this`mem
      ensures Valid() && old(libs) <= libs && -1 <= handle < |libs|
      ensures handle >= 0 ==> BaseName(libs[handle].path) == BaseName(path)
      ensures BaseName(path) in Names(old(libs)) ==>
        ok && 0 <= handle && libs == old(libs) && mem == old(mem) && next == old(next)
      ensures BaseName(path) !in Names(old(libs)) ==>
        && (handle == -1 <==> |old(libs)| >= MAX_LIBS || !Loadable(world, path, old(next)))
        && (handle == -1 ==> ok && libs == old(libs) && mem == old(mem))
        && (handle != -1 ==> handle == |old(libs)| && libs[handle] == Obj(path, old(next), files[path]))
      ensures ok && |old(libs)| < |libs| ==>
        && Covered(libs[|old(libs)|].so.needed, libs)
        && mem == Done(old(mem), main, libs, AllJobs(libs, |old(libs)|, |libs|))
        && Held(mem, [main] + libs, AllJobs(libs, |old(libs)|, |libs|))
      ensures !ok ==>
        && |old(libs)| < |libs|
        && (Stuck(world, libs[|old(libs)|].so.needed, libs, next) ||
          !AllBound(main, libs, AllJobs(libs, |old(libs)|, |libs|)))
      ensures forall name :: FirstIn([main] + old(libs), name) != 0 ==>
        FirstIn([main] + libs, name) == FirstIn([main] + old(libs), name)
      ensures ok && LaidOut() && AllLinked(old(mem), main, old(libs)) ==> AllLinked(mem, main, libs)
    {
      hide FirstIn, Held, Jobs, Names, BaseName, LibPath, Plain, Pulled, Covered, Done, Bound, AllJobs, AllBound,
        Stuck, MegabyteUp, AllLinked, LaidOut;
      ok := true;
      handle := 0;
      while handle < |libs|
        invariant 0 <= handle <= |libs| && forall j :: 0 <= j < handle ==> BaseName(libs[j].path) != BaseName(path)
        modifies {}
      {
        if BaseName(libs[handle].path) == BaseName(path) {
          return;
        }
        handle := handle + 1;
      }
      NotNamed(libs, BaseName(path));
      if |libs| >= MAX_LIBS {
        return -1, true;
      }
      var o;
      ok, o := LoadSo(path);
      if !ok {
        return -1, true;
      }
      ok := OpenNew(o);
    }

    /** Add a library, load what it needs and relocate what is new. */
    method OpenNew(o: Obj) returns (ok: bool)
      requires FilesOk(files) && LibsOk(files, libs, o.region) && |libs| < MAX_LIBS && LibOk(files, o) &&
        BaseName(o.path) !in Names(libs)
      requires o.region + o.so.span <= next <= 0x4000_0000
      modifies this`libs, this`next, this`mem
      ensures Valid() && old(libs) + [o] <= libs
      ensures ok ==>
        && Covered(o.so.needed, libs)
        && mem == Done(old(mem), main, libs, AllJobs(libs, |old(libs)|, |libs|))
        && Held(mem, [main] + libs, AllJobs(libs, |old(libs)|, |libs|))
      ensures !ok ==>
        Stuck(world, o.so.needed, libs, next) || !AllBound(main, libs, AllJobs(libs, |old(libs)|, |libs|))
      ensures forall name :: FirstIn([main] + old(libs), name) != 0 ==>
        FirstIn([main] + libs, name) == FirstIn([main] + old(libs), name)
      ensures ok && LaidOut() && AllLinked(old(mem), main, old(libs)) ==> AllLinked(mem, main, libs)
    {
      hide FirstIn, Held, Jobs, Names, BaseName, LibPath, Plain, Pulled, Covered, Done, Bound, AllJobs, AllBound, Stuck,
        AllLinked, Tidy, MainApart;
      var start := |libs|;
      ghost var libs0, mem0 := libs, mem;
      Extended(files, libs, o, next);
      libs := libs + [o];
      ok := LoadNeeded(o.so.needed);
      Grown([main], libs0, libs);
      if ok {
        ghost var jobs;
        ok, jobs := RelocateFrom(start);
        if ok {
          DoneHeld(mem0, main, libs, jobs);
          if LaidOut() && AllLinked(mem0, main, libs0) {
            assert forall i :: 0 <= i < |libs| ==> LibOk(files, libs[i]);
            assert libs[..start] == libs0;
            OpenedLinked(files, main, libs, next, start, mem0);
          }
        }
      }
    }
  }

  // ----- relocation -----

  datatype Job = Job(me: Obj, r: Reloc)

  type Memory = map<nat, nat>

  function Where(me: Obj, r: Reloc): nat { (Base(me) + r.offset) % W64 }

  /** How many bytes a relocation writes. */
  function Width(r: Reloc): nat {
    match r.kind
    case Relative => 8
    case Slot => 8
    case Word => if r.hasName then 8 else 0
    case Disp32 => if r.hasName then 4 else 0
    case Copy(size) => if r.hasName then size else 0
    case Other => 0
  }

  predicate Overlap(a: nat, n: nat, b: nat, m: nat) { a < b + m && b < a + n }

  function Clobber(mem: Memory, w: nat, n: nat): Memory { map k | k in mem && !Overlap(k, 8, w, n) :: mem[k] }

  function SetWord(mem: Memory, w: nat, v: nat): Memory { Clobber(mem, w, 8)[w := v] }

  /** The word at w after one more relocation, if that leaves it alone. */
  ghost predicate After(mem: Memory, mem': Memory, x: Job) {
    forall k :: k in mem && !Overlap(k, 8, Where(x.me, x.r), Width(x.r)) ==> k in mem' && mem'[k] == mem[k]
  }

  /** No job after the i-th touches its word. */
  ghost predicate Settled(jobs: seq<Job>, i: nat)
    requires i < |jobs|
  {
    forall j :: i < j < |jobs| ==>
      !Overlap(Where(jobs[i].me, jobs[i].r), 8, Where(jobs[j].me, jobs[j].r), Width(jobs[j].r))
  }

  /** Settled slots hold the first definition of their names. */
  ghost predicate Held(mem: Memory, objs: seq<Obj>, jobs: seq<Job>) {
    forall i: nat :: i < |jobs| && jobs[i].r.kind == Slot && Settled(jobs, i) ==> SlotHeld(mem, objs, jobs[i])
  }

  ghost predicate SlotHeld(mem: Memory, objs: seq<Obj>, x: Job) {
    var w := Where(x.me, x.r);
    w in mem && mem[w] == FirstIn(objs, x.r.sym) && mem[w] != 0
  }

  /** What a relocation looks up is defined. */
  ghost predicate Bound(main: Obj, libs: seq<Obj>, r: Reloc) {
    match r.kind
    case Slot => r.hasName && FirstIn([main] + libs, r.sym) != 0
    case Copy(_) => r.hasName ==> FirstIn(libs, r.sym) != 0
    case _ => true
  }

  ghost predicate AllBound(main: Obj, libs: seq<Obj>, jobs: seq<Job>) {
    forall i :: 0 <= i < |jobs| ==> Bound(main, libs, jobs[i].r)
  }

  /** Memory after one relocation. */
  ghost function Effect(mem: Memory, main: Obj, libs: seq<Obj>, x: Job): Memory {
    var w, a := Where(x.me, x.r), FirstIn([main] + libs, x.r.sym);
    match x.r.kind
    case Relative => SetWord(mem, w, (Base(x.me) + x.r.addend) % W64)
    case Slot => SetWord(mem, w, a)
    case Word => if x.r.hasName then SetWord(mem, w, (a + x.r.addend) % W64) else mem
    case Disp32 => if x.r.hasName then Clobber(mem, w, 4) else mem
    case Copy(size) => if x.r.hasName then Clobber(mem, w, size) else mem
    case Other => mem
  }

  /** Memory after all of them, in order. */
  ghost function Done(mem: Memory, main: Obj, libs: seq<Obj>, jobs: seq<Job>): Memory {
    if jobs == [] then mem else Effect(Done(mem, main, libs, jobs[..|jobs| - 1]), main, libs, jobs[|jobs| - 1])
  }

  lemma DoneNone(mem: Memory, main: Obj, libs: seq<Obj>)
    ensures Done(mem, main, libs, []) == mem && AllBound(main, libs, [])
  {
  }

  lemma DoneStep(mem: Memory, main: Obj, libs: seq<Obj>, jobs: seq<Job>, x: Job)
    ensures Done(mem, main, libs, jobs + [x]) == Effect(Done(mem, main, libs, jobs), main, libs, x)
  {
    assert (jobs + [x])[..|jobs|] == jobs;
  }

  lemma EffectAfter(mem: Memory, main: Obj, libs: seq<Obj>, x: Job)
    requires Bound(main, libs, x.r)
    ensures After(mem, Effect(mem, main, libs, x), x)
    ensures x.r.kind == Slot ==> SlotHeld(Effect(mem, main, libs, x), [main] + libs, x)
  {
    hide FirstIn;
  }

  /** After all relocations every settled slot holds the first definition. */
  lemma {:induction false} DoneHeld(mem: Memory, main: Obj, libs: seq<Obj>, jobs: seq<Job>)
    requires AllBound(main, libs, jobs)
    ensures Held(Done(mem, main, libs, jobs), [main] + libs, jobs)
  {
    hide Effect, Held, After, SlotHeld, Bound;
    if jobs == [] {
      HeldNone(mem, [main] + libs);
    } else {
      var n := |jobs| - 1;
      var m := Done(mem, main, libs, jobs[..n]);
      DoneHeld(mem, main, libs, jobs[..n]);
      EffectAfter(m, main, libs, jobs[n]);
      HeldAfter(m, Effect(m, main, libs, jobs[n]), [main] + libs, jobs[..n], jobs[n]);
      assert jobs[..n] + [jobs[n]] == jobs;
    }
  }

  lemma BoundJoin(main: Obj, libs: seq<Obj>, jobs: seq<Job>, me: Obj)
    ensures AllBound(main, libs, jobs + Jobs(me, |me.so.relocs|)) <==>
      AllBound(main, libs, jobs) && forall i :: 0 <= i < |me.so.relocs| ==> Bound(main, libs, me.so.relocs[i])
  {
    hide Bound;
    var all, more := jobs + Jobs(me, |me.so.relocs|), Jobs(me, |me.so.relocs|);
    if AllBound(main, libs, all) {
      forall i | 0 <= i < |jobs| ensures Bound(main, libs, jobs[i].r) {
        assert all[i] == jobs[i];
      }
      forall i | 0 <= i < |me.so.relocs| ensures Bound(main, libs, me.so.relocs[i]) {
        assert all[|jobs| + i] == more[i];
      }
    }
  }

  /** If one library has an unbound relocation, so has the whole list. */
  lemma BoundStep(main: Obj, libs: seq<Obj>, start: nat, i: nat)
    requires start <= i < |libs|
    ensures AllBound(main, libs, AllJobs(libs, start, |libs|)) ==> forall j :: 0 <= j < |libs[i].so.relocs| ==>
      Bound(main, libs, libs[i].so.relocs[j])
    ensures AllBound(main, libs, AllJobs(libs, start, i + 1)) <==>
      AllBound(main, libs, AllJobs(libs, start, i)) && forall j :: 0 <= j < |libs[i].so.relocs| ==>
        Bound(main, libs, libs[i].so.relocs[j])
  {
    hide Bound, AllBound, Jobs;
    BoundJoin(main, libs, AllJobs(libs, start, i), libs[i]);
    BoundUpTo(main, libs, start, i + 1, |libs|);
  }

  lemma {:induction false} BoundUpTo(main: Obj, libs: seq<Obj>, start: nat, i: nat, n: nat)
    requires start <= i <= n <= |libs|
    ensures AllBound(main, libs, AllJobs(libs, start, n)) ==> AllBound(main, libs, AllJobs(libs, start, i))
    decreases n
  {
    hide Bound, AllBound, Jobs;
    if i < n {
      BoundJoin(main, libs, AllJobs(libs, start, n - 1), libs[n - 1]);
      BoundUpTo(main, libs, start, i, n - 1);
    }
  }

  // ----- when every slot is settled -----

  /** Relocations lie inside the image, and no later one touches a slot. */
  ghost predicate Tidy(so: So) {
    && (forall i :: 0 <= i < |so.relocs| ==> InImage(so, so.relocs[i]))
    && forall i, j :: 0 <= i < j < |so.relocs| && so.relocs[i].kind == Slot ==>
         !Overlap(so.relocs[i].offset, 8, so.relocs[j].offset, Width(so.relocs[j]))
  }

  predicate InImage(so: So, r: Reloc) { so.minV <= r.offset && r.offset + Width(r) <= so.minV + so.span }

  /** The bytes that the jobs write lie between two addresses. */
  ghost predicate AllIn(jobs: seq<Job>, lo: nat, hi: nat) {
    forall i :: 0 <= i < |jobs| ==> JobIn(jobs[i], lo, hi)
  }

  predicate JobIn(x: Job, lo: nat, hi: nat) { lo <= Where(x.me, x.r) && Where(x.me, x.r) + Width(x.r) <= hi }

  ghost predicate Clear(jobs: seq<Job>) {
    forall i: nat :: i < |jobs| && jobs[i].r.kind == Slot ==> Settled(jobs, i)
  }

  /** The jobs of a tidy object stay in its region and settle all its slots. */
  lemma TidyJobs(me: Obj)
    requires Tidy(me.so) && me.region + me.so.span < W64
    ensures var jobs := Jobs(me, |me.so.relocs|); Clear(jobs) && AllIn(jobs, me.region, me.region + me.so.span)
  {
    var jobs := Jobs(me, |me.so.relocs|);
    forall i | 0 <= i < |jobs|
      ensures Where(me, jobs[i].r) == me.region + (jobs[i].r.offset - me.so.minV) &&
        JobIn(jobs[i], me.region, me.region + me.so.span)
    {
      assert InImage(me.so, me.so.relocs[i]);
    }
  }

  lemma ClearConcat(a: seq<Job>, b: seq<Job>, lo: nat, mid: nat, hi: nat)
    requires Clear(a) && Clear(b)
    requires (AllIn(a, lo, mid) && AllIn(b, mid, hi)) || (AllIn(b, lo, mid) && AllIn(a, mid, hi))
    ensures Clear(a + b)
  {
    hide Where, Width;
    var jobs := a + b;
    forall i: nat | i < |jobs| && jobs[i].r.kind == Slot ensures Settled(jobs, i) {
      SlotWidth(jobs[i].r);
      forall j | i < j < |jobs|
        ensures !Overlap(Where(jobs[i].me, jobs[i].r), 8, Where(jobs[j].me, jobs[j].r), Width(jobs[j].r))
      {
        if j < |a| {
          assert Settled(a, i) && jobs[j] == a[j];
        } else if i >= |a| {
          assert Settled(b, i - |a|) && jobs[i] == b[i - |a|] && jobs[j] == b[j - |a|];
        } else {
          assert jobs[i] == a[i] && jobs[j] == b[j - |a|];
        }
      }
    }
  }

  lemma SlotWidth(r: Reloc)
    ensures r.kind == Slot ==> Width(r) == 8
  {
  }

  /** Where the n-th library starts, or the end of the region for all of them. */
  ghost function Start(libs: seq<Obj>, n: nat): nat { if n < |libs| then libs[n].region else REGION_END }

  lemma StartsUp(files: Files, libs: seq<Obj>, next: nat, lo: nat, n: nat)
    requires LibsOk(files, libs, next) && lo <= n
    ensures REGION_START <= Start(libs, lo) <= Start(libs, n) <= REGION_END
    ensures lo < n && lo < |libs| ==> libs[lo].region + libs[lo].so.span <= Start(libs, n)
  {
    if lo < |libs| {
      assert LibOk(files, libs[lo]);
      if n < |libs| {
        assert LibOk(files, libs[n]);
      }
    }
  }

  /** Tidy libraries in regions of their own: no relocation of one touches another. */
  lemma {:induction false} LibJobs(files: Files, libs: seq<Obj>, next: nat, lo: nat, n: nat)
    requires LibsOk(files, libs, next) && lo <= n <= |libs| && forall i :: 0 <= i < |libs| ==> Tidy(libs[i].so)
    ensures Clear(AllJobs(libs, lo, n)) && AllIn(AllJobs(libs, lo, n), Start(libs, lo), Start(libs, n))
    decreases n
  {
    hide Jobs, Clear, Tidy, AllIn, BaseName, JobIn, Start, LibsOk;
    StartsUp(files, libs, next, lo, n);
    if n == lo {
      NoJobs(Start(libs, lo), Start(libs, n));
    } else {
      var o := libs[n - 1];
      LibJobs(files, libs, next, lo, n - 1);
      StartsUp(files, libs, next, n - 1, n);
      StartsUp(files, libs, next, lo, n - 1);
      StartIs(libs, n - 1);
      TidyJobs(o);
      var a, b, hi := AllJobs(libs, lo, n - 1), Jobs(o, |o.so.relocs|), Start(libs, n);
      InMore(b, o.region, o.region + o.so.span, o.region, hi);
      ClearConcat(a, b, Start(libs, lo), o.region, hi);
      InMore(a, Start(libs, lo), o.region, Start(libs, lo), hi);
      InMore(b, o.region, hi, Start(libs, lo), hi);
      InBoth(a, b, Start(libs, lo), hi);
    }
  }

  lemma StartIs(libs: seq<Obj>, n: nat)
    requires n < |libs|
    ensures Start(libs, n) == libs[n].region
  {
  }

  lemma NoJobs(lo: nat, hi: nat)
    ensures Clear([]) && AllIn([], lo, hi)
  {
  }

  lemma InMore(jobs: seq<Job>, lo: nat, hi: nat, lo': nat, hi': nat)
    requires AllIn(jobs, lo, hi) && lo' <= lo && hi <= hi'
    ensures AllIn(jobs, lo', hi')
  {
  }

  lemma InBoth(a: seq<Job>, b: seq<Job>, lo: nat, hi: nat)
    requires AllIn(a, lo, hi) && AllIn(b, lo, hi)
    ensures AllIn(a + b, lo, hi)
  {
  }

  /** The program lies outside the region of the libraries. */
  predicate MainApart(main: Obj) {
    main.region + main.so.span <= REGION_START || (REGION_END <= main.region && main.region + main.so.span < W64)
  }

  lemma AllSettled(files: Files, main: Obj, libs: seq<Obj>, next: nat)
    requires LibsOk(files, libs, next) && MainApart(main) && Tidy(main.so) && forall i :: 0 <= i < |libs| ==>
      Tidy(libs[i].so)
    ensures Clear(AllJobs(libs, 0, |libs|) + Jobs(main, |main.so.relocs|))
  {
    hide Jobs, Clear, Tidy, AllIn, LibsOk, AllJobs;
    LibJobs(files, libs, next, 0, |libs|);
    StartsUp(files, libs, next, 0, |libs|);
    TidyJobs(main);
    var a, b := AllJobs(libs, 0, |libs|), Jobs(main, |main.so.relocs|);
    InMore(a, Start(libs, 0), Start(libs, |libs|), REGION_START, REGION_END);
    if main.region + main.so.span <= REGION_START {
      InMore(b, main.region, main.region + main.so.span, main.region, REGION_START);
      ClearConcat(a, b, main.region, REGION_START, REGION_END);
    } else {
      InMore(b, main.region, main.region + main.so.span, REGION_END, main.region + main.so.span);
      ClearConcat(a, b, REGION_START, REGION_END, main.region + main.so.span);
    }
  }

  /** Every slot of an object holds the first definition of its name. */
  ghost predicate Bindings(mem: Memory, objs: seq<Obj>, me: Obj) {
    forall i :: 0 <= i < |me.so.relocs| && me.so.relocs[i].kind == Slot ==>
      SlotHeld(mem, objs, Job(me, me.so.relocs[i]))
  }

  lemma AllBindings(mem: Memory, objs: seq<Obj>, jobs: seq<Job>, pre: seq<Job>, me: Obj, post: seq<Job>)
    requires Held(mem, objs, jobs) && Clear(jobs) && jobs == pre + Jobs(me, |me.so.relocs|) + post
    ensures Bindings(mem, objs, me)
  {
    hide SlotHeld, Settled;
    forall i | 0 <= i < |me.so.relocs| && me.so.relocs[i].kind == Slot
      ensures SlotHeld(mem, objs, Job(me, me.so.relocs[i]))
    {
      assert jobs[|pre| + i] == Job(me, me.so.relocs[i]);
    }
  }

  /** The jobs of one library within those of all from lo on. */
  lemma {:induction false} JobsOfOne(libs: seq<Obj>, lo: nat, n: nat, k: nat)
    returns (pre: seq<Job>, post: seq<Job>)
    requires lo <= k < n <= |libs|
    ensures AllJobs(libs, lo, n) == pre + Jobs(libs[k], |libs[k].so.relocs|) + post
    decreases n
  {
    hide Jobs;
    if k == n - 1 {
      pre, post := AllJobs(libs, lo, k), [];
    } else {
      pre, post := JobsOfOne(libs, lo, n - 1, k);
      post := post + Jobs(libs[n - 1], |libs[n - 1].so.relocs|);
    }
  }

  // ----- opening a library at run time -----

  /** The program and every library have their bindings. */
  ghost predicate AllLinked(mem: Memory, main: Obj, libs: seq<Obj>) {
    && Bindings(mem, [main] + libs, main)
    && forall k :: 0 <= k < |libs| ==> Bindings(mem, [main] + libs, libs[k])
  }

  /** Relocations below or above a word leave it alone. */
  lemma {:induction false} DoneKeeps(mem: Memory, main: Obj, libs: seq<Obj>, jobs: seq<Job>, lo: nat, hi: nat, w: nat)
    requires AllBound(main, libs, jobs) && AllIn(jobs, lo, hi) && w in mem && (w + 8 <= lo || hi <= w)
    ensures w in Done(mem, main, libs, jobs) && Done(mem, main, libs, jobs)[w] == mem[w]
  {
    hide Effect, Where, Width, Bound;
    if jobs != [] {
      var n := |jobs| - 1;
      DoneKeeps(mem, main, libs, jobs[..n], lo, hi, w);
      EffectAfter(Done(mem, main, libs, jobs[..n]), main, libs, jobs[n]);
      assert JobIn(jobs[n], lo, hi);
    }
  }

  /** An object outside the new regions keeps its bindings: its words are left alone
      and its names resolve as before. */
  lemma BindingsKept(
    mem: Memory, main: Obj, libs0: seq<Obj>, libs: seq<Obj>, jobs: seq<Job>, lo: nat, hi: nat, me: Obj)
    requires libs0 <= libs && Bindings(mem, [main] + libs0, me) && Tidy(me.so) && me.region + me.so.span < W64
    requires AllBound(main, libs, jobs) && AllIn(jobs, lo, hi)
    requires me.region + me.so.span <= lo || hi <= me.region
    ensures Bindings(Done(mem, main, libs, jobs), [main] + libs, me)
  {
    hide Tidy, AllBound, AllIn, Done, FirstIn, Where, Clear;
    TidyJobs(me);
    Grown([main], libs0, libs);
    forall i | 0 <= i < |me.so.relocs| && me.so.relocs[i].kind == Slot
      ensures SlotHeld(Done(mem, main, libs, jobs), [main] + libs, Job(me, me.so.relocs[i]))
    {
      var x := Job(me, me.so.relocs[i]);
      assert SlotHeld(mem, [main] + libs0, x);
      SlotInside(me, i);
      DoneKeeps(mem, main, libs, jobs, lo, hi, Where(me, x.r));
    }
  }

  lemma SlotInside(me: Obj, i: nat)
    requires AllIn(Jobs(me, |me.so.relocs|), me.region, me.region + me.so.span)
    requires i < |me.so.relocs| && me.so.relocs[i].kind == Slot
    ensures me.region <= Where(me, me.so.relocs[i]) && Where(me, me.so.relocs[i]) + 8 <= me.region + me.so.span
  {
    hide Where;
    assert JobIn(Jobs(me, |me.so.relocs|)[i], me.region, me.region + me.so.span);
  }

  /** Relocating the libraries from the start-th on links them and keeps the others linked. */
  lemma OpenedLinked(files: Files, main: Obj, libs: seq<Obj>, next: nat, start: nat, mem: Memory)
    requires LibsOk(files, libs, next) && start <= |libs| && MainApart(main) && Tidy(main.so)
    requires forall i :: 0 <= i < |libs| ==> Tidy(libs[i].so)
    requires AllLinked(mem, main, libs[..start]) && AllBound(main, libs, AllJobs(libs, start, |libs|))
    ensures AllLinked(Done(mem, main, libs, AllJobs(libs, start, |libs|)), main, libs)
  {
    hide Tidy, AllBound, AllIn, Done, Clear, Bindings, LibsOk, AllJobs, Held, Jobs, Start;
    var jobs, libs0 := AllJobs(libs, start, |libs|), libs[..start];
    var mem' := Done(mem, main, libs, jobs);
    LibJobs(files, libs, next, start, |libs|);
    StartsUp(files, libs, next, start, |libs|);
    BindingsKept(mem, main, libs0, libs, jobs, Start(libs, start), Start(libs, |libs|), main);
    DoneHeld(mem, main, libs, jobs);
    forall k | 0 <= k < |libs| ensures Bindings(mem', [main] + libs, libs[k]) {
      if k < start {
        assert libs0[k] == libs[k];
        StartsUp(files, libs, next, k, start);
        BindingsKept(mem, main, libs0, libs, jobs, Start(libs, start), Start(libs, |libs|), libs[k]);
      } else {
        var pre, post := JobsOfOne(libs, start, |libs|, k);
        AllBindings(mem', [main] + libs, jobs, pre, libs[k], post);
      }
    }
  }

  lemma HeldNone(mem: Memory, objs: seq<Obj>)
    ensures Held(mem, objs, [])
  {
  }

  lemma HeldAfter(mem: Memory, mem': Memory, objs: seq<Obj>, jobs: seq<Job>, x: Job)
    requires Held(mem, objs, jobs) && After(mem, mem', x) && (x.r.kind == Slot ==> SlotHeld(mem', objs, x))
    ensures Held(mem', objs, jobs + [x])
  {
    hide FirstIn, Where, Width;
    var all := jobs + [x];
    forall i: nat | i < |all| && all[i].r.kind == Slot && Settled(all, i) ensures SlotHeld(mem', objs, all[i]) {
      if i < |jobs| {
        assert forall j :: i < j < |jobs| ==> all[j] == jobs[j];
        assert all[|jobs|] == x;
        assert Settled(jobs, i);
      }
    }
  }

  /** Two settled slots for one name hold the same address. */
  lemma SlotsAgree(mem: Memory, objs: seq<Obj>, jobs: seq<Job>, i: nat, j: nat)
    requires Held(mem, objs, jobs) && i < |jobs| && j < |jobs| && Settled(jobs, i) && Settled(jobs, j)
    requires jobs[i].r.kind == Slot && jobs[j].r.kind == Slot && jobs[i].r.sym == jobs[j].r.sym
    ensures Where(jobs[i].me, jobs[i].r) in mem && Where(jobs[j].me, jobs[j].r) in mem
    ensures mem[Where(jobs[i].me, jobs[i].r)] == mem[Where(jobs[j].me, jobs[j].r)] == FirstIn(objs, jobs[i].r.sym)
  {
    assert SlotHeld(mem, objs, jobs[i]) && SlotHeld(mem, objs, jobs[j]);
  }

  ghost function Jobs(me: Obj, n: nat): seq<Job>
    requires n <= |me.so.relocs|
  {
    seq(n, i requires 0 <= i < n => Job(me, me.so.relocs[i]))
  }

  ghost function AllJobs(libs: seq<Obj>, lo: nat, n: nat): seq<Job>
    requires n <= |libs|
  {
    if n <= lo then [] else AllJobs(libs, lo, n - 1) + Jobs(libs[n - 1], |libs[n - 1].so.relocs|)
  }

  lemma JobsNone(me: Obj, jobs: seq<Job>)
    ensures jobs + Jobs(me, 0) == jobs
  {
  }

  lemma JobsStep(me: Obj, i: nat, jobs: seq<Job>)
    requires i < |me.so.relocs|
    ensures (jobs + Jobs(me, i)) + [Job(me, me.so.relocs[i])] == jobs + Jobs(me, i + 1)
  {
  }

  lemma ExactlyReachable(files: Files, from: seq<string>, libs: seq<Obj>)
    requires Covered(from, libs) && forall i :: 0 <= i < |libs| ==> Pulled(files, from, libs, libs[i])
    ensures forall n :: n in Names(libs) <==> Reaches(files, from, n)
  {
    hide BaseName, LibPath;
    forall n | Reaches(files, from, n) ensures n in Names(libs) {
      var path :| Chain(files, from, path) && path[|path| - 1] == n;
      ClosedHolds(files, from, Names(libs), path);
    }
  }

  lemma NotNamed(libs: seq<Obj>, name: string)
    requires forall j :: 0 <= j < |libs| ==> BaseName(libs[j].path) != name
    ensures name !in Names(libs)
  {
  }

  lemma Grown(first: seq<Obj>, libs: seq<Obj>, libs': seq<Obj>)
    requires libs <= libs'
    ensures forall name :: FirstIn(first + libs, name) != 0 ==>
      FirstIn(first + libs', name) == FirstIn(first + libs, name)
  {
    hide FirstIn;
    var more := libs'[|libs|..];
    assert (first + libs) + more == first + libs';
    forall name | FirstIn(first + libs, name) != 0 ensures FirstIn(first + libs', name) == FirstIn(first + libs, name) {
      ResolutionStable(first + libs, more, name);
    }
  }

  /** A library that was loaded because it is needed, with all it needs. */
  ghost predicate Pulled(files: Files, from: seq<string>, libs: seq<Obj>, o: Obj) {
    && o.path == LibPath(BaseName(o.path)) && o.path in files && files[o.path] == o.so
    && Covered(o.so.needed, libs) && Reaches(files, from, BaseName(o.path))
  }

  lemma CoveredNone(libs: seq<Obj>)
    ensures Covered([], libs)
  {
  }

  lemma NamesMore(libs: seq<Obj>, libs': seq<Obj>, name: string)
    requires libs <= libs' && name in Names(libs)
    ensures name in Names(libs')
  {
  }

  lemma CoveredMore(needed: seq<string>, libs: seq<Obj>, libs': seq<Obj>)
    requires Covered(needed, libs) && libs <= libs'
    ensures Covered(needed, libs')
  {
    hide Names;
    forall n | n in needed ensures n in Names(libs') {
      NamesMore(libs, libs', n);
    }
  }

  lemma CoveredStep(needed: seq<string>, d: nat, libs: seq<Obj>, libs': seq<Obj>)
    requires d < |needed| && Covered(needed[..d], libs) && libs <= libs' && needed[d] in Names(libs')
    ensures Covered(needed[..d + 1], libs')
  {
    hide Names;
    CoveredMore(needed[..d], libs, libs');
    assert needed[..d + 1] == needed[..d] + [needed[d]];
  }

  lemma PulledMore(files: Files, from: seq<string>, libs: seq<Obj>, libs': seq<Obj>, o: Obj)
    requires Pulled(files, from, libs, o) && libs <= libs'
    ensures Pulled(files, from, libs', o)
  {
    hide Names, Covered, Reaches;
    CoveredMore(o.so.needed, libs, libs');
  }

  lemma PulledBy(files: Files, from: seq<string>, name: string, libs: seq<Obj>, o: Obj)
    requires Pulled(files, [name], libs, o) && name in from
    ensures Pulled(files, from, libs, o)
  {
    hide Names, Covered;
    var path :| Chain(files, [name], path) && path[|path| - 1] == BaseName(o.path);
    assert Chain(files, from, path);
  }

  lemma PulledFirst(files: Files, name: string, libs: seq<Obj>, o: Obj)
    requires Plain(name) && o.path == LibPath(name) && BaseName(o.path) == name && o.path in files &&
      files[o.path] == o.so
    requires Covered(o.so.needed, libs)
    ensures Pulled(files, [name], libs, o)
  {
    hide Names, Covered, BaseName, LibPath;
    ReachDirect(files, [name], name);
  }

  lemma PulledThrough(files: Files, name: string, libs: seq<Obj>, o: Obj)
    requires LibPath(name) in files && Pulled(files, files[LibPath(name)].needed, libs, o)
    ensures Pulled(files, [name], libs, o)
  {
    hide Names, Covered, BaseName, LibPath, Reaches;
    ReachThrough(files, [name], name, BaseName(o.path));
  }

  lemma Extended(files: Files, libs: seq<Obj>, o: Obj, next: nat)
    requires LibsOk(files, libs, o.region) && |libs| < MAX_LIBS && LibOk(files, o) && BaseName(o.path) !in Names(libs)
    requires o.region + o.so.span <= next <= 0x4000_0000
    ensures LibsOk(files, libs + [o], next) && BaseName(o.path) in Names(libs + [o])
  {
    hide BaseName;
    assert (libs + [o])[|libs|] == o;
  }
}
