/**
 Path canonicalisation in a fixed buffer, and the working directory and root that
 a process resolves paths against. The buffer algorithm equals a stack fold over
 the components.
 */
module Paths {
  const MAX_PATH := 256

  // ----- components -----

  /** Characters before the first slash. */
  function SegLen(s: string): (n: nat)
    ensures n <= |s| && (forall i :: 0 <= i < n ==> s[i] != '/') && (n < |s| ==> s[n] == '/')
  {
    if s == "" || s[0] == '/' then 0 else 1 + SegLen(s[1..])
  }

  /** The non-empty parts between slashes. */
  function Comps(s: string): seq<string>
    decreases |s|
  {
    if s == "" then []
    else if s[0] == '/' then Comps(s[1..])
    else [s[..SegLen(s)]] + Comps(s[SegLen(s)..])
  }

  predicate Segment(c: string) { c != "" && '/' !in c }

  /** A component that a canonical path may have. */
  predicate Clean(c: string) { Segment(c) && c != "." && c != ".." }

  ghost predicate AllClean(st: seq<string>) { forall i :: 0 <= i < |st| ==> Clean(st[i]) }

  lemma {:induction false} CompsSegments(s: string)
    ensures forall i :: 0 <= i < |Comps(s)| ==> Segment(Comps(s)[i])
    decreases |s|
  {
    if s != "" {
      if s[0] == '/' {
        CompsSegments(s[1..]);
      } else {
        CompsSegments(s[SegLen(s)..]);
      }
    }
  }

  lemma {:induction false} SegLenConcat(a: string, b: string)
    requires a != "" && a[0] != '/'
    ensures SegLen(a + "/" + b) == SegLen(a)
    decreases |a|
  {
    var s := a + "/" + b;
    assert s[1..] == a[1..] + "/" + b;
    if |a| > 1 && a[1] != '/' {
      SegLenConcat(a[1..], b);
    }
  }

  /** Joining two paths with a slash joins their components. */
  lemma {:induction false} CompsConcat(a: string, b: string)
    ensures Comps(a + "/" + b) == Comps(a) + Comps(b)
    decreases |a|
  {
    hide Comps, SegLen;
    var s := a + "/" + b;
    NoComps();
    if a == "" {
      assert s[1..] == b;
      CompsHead(s);
    } else if a[0] == '/' {
      assert s[1..] == a[1..] + "/" + b;
      CompsConcat(a[1..], b);
      CompsHead(s);
      CompsHead(a);
    } else {
      SegLenConcat(a, b);
      var n := SegLen(a);
      assert s[..n] == a[..n] && s[n..] == a[n..] + "/" + b;
      CompsConcat(a[n..], b);
      CompsHead(s);
      CompsHead(a);
      assert [a[..n]] + (Comps(a[n..]) + Comps(b)) == ([a[..n]] + Comps(a[n..])) + Comps(b);
    }
  }

  /** One step of splitting. */
  lemma CompsHead(s: string)
    requires s != ""
    ensures Comps(s) == if s[0] == '/' then Comps(s[1..]) else [s[..SegLen(s)]] + Comps(s[SegLen(s)..])
    ensures s[0] != '/' ==> SegLen(s) > 0
  {
  }

  lemma {:induction false} SegLenAll(c: string)
    requires Segment(c)
    ensures SegLen(c) == |c|
  {
    if |c| > 1 {
      SegLenAll(c[1..]);
    }
  }

  lemma CompsOne(c: string)
    requires Segment(c)
    ensures Comps(c) == [c]
  {
    SegLenAll(c);
    assert c[..|c|] == c && c[|c|..] == "";
  }

  // ----- the stack -----

  ghost function Push(st: seq<string>, c: string): seq<string> {
    if c == "." then st
    else if c == ".." then (if st == [] then [] else st[..|st| - 1])
    else st + [c]
  }

  /** The meaning of a list of components from a directory: "." stays, ".." goes
      up but never above the root. */
  ghost function Fold(st: seq<string>, cs: seq<string>): seq<string>
    decreases cs
  {
    if cs == [] then st else Fold(Push(st, cs[0]), cs[1..])
  }

  lemma {:induction false} FoldConcat(st: seq<string>, a: seq<string>, b: seq<string>)
    ensures Fold(st, a + b) == Fold(Fold(st, a), b)
    decreases a
  {
    if a == [] {
      assert a + b == b;
    } else {
      assert (a + b)[1..] == a[1..] + b;
      FoldConcat(Push(st, a[0]), a[1..], b);
    }
  }

  lemma {:induction false} FoldClean(st: seq<string>, cs: seq<string>)
    requires AllClean(st) && forall i :: 0 <= i < |cs| ==> Segment(cs[i])
    ensures AllClean(Fold(st, cs))
    decreases cs
  {
    if cs != [] {
      FoldClean(Push(st, cs[0]), cs[1..]);
    }
  }

  lemma {:induction false} FoldOfClean(st: seq<string>, cs: seq<string>)
    requires AllClean(cs)
    ensures Fold(st, cs) == st + cs
    decreases cs
  {
    if cs != [] {
      FoldOfClean(st + [cs[0]], cs[1..]);
      assert st + [cs[0]] + cs[1..] == st + cs;
    } else {
      assert st + cs == st;
    }
  }

  // ----- text -----

  /** The buffer while it is built: every component ends in a slash. */
  ghost function Trail(st: seq<string>): (s: string)
    ensures |s| >= 1 && s[0] == '/' && s[|s| - 1] == '/'
  {
    if st == [] then "/" else Trail(st[..|st| - 1]) + st[|st| - 1] + "/"
  }

  /** The canonical path of a stack. */
  ghost function Text(st: seq<string>): string {
    if st == [] then "/" else Trail(st)[..|Trail(st)| - 1]
  }

  lemma {:induction false} CompsTrail(st: seq<string>)
    requires AllClean(st)
    ensures Comps(Trail(st)) == st
  {
    if st != [] {
      var init, c := st[..|st| - 1], st[|st| - 1];
      CompsTrail(init);
      CompsText(st);
      assert Trail(st) == Text(st) + "/" + "";
      CompsConcat(Text(st), "");
    }
  }

  lemma NoComps()
    ensures Comps("") == []
  {
  }

  lemma TextStep(st: seq<string>)
    requires st != []
    ensures var init := st[..|st| - 1];
      Text(st) == (if init == [] then "" else Text(init)) + "/" + st[|st| - 1]
  {
    var init := st[..|st| - 1];
    if init != [] {
      assert Trail(init) == Text(init) + "/";
    }
  }

  /** A canonical path has exactly the components of its stack. */
  lemma {:induction false} CompsText(st: seq<string>)
    requires AllClean(st)
    ensures Comps(Text(st)) == st
    decreases |st|, 0
  {
    hide Comps, Trail, Text, SegLen;
    if st == [] {
      TrailNone();
      RootComps();
    } else {
      var init, c := st[..|st| - 1], st[|st| - 1];
      CompsText(init);
      assert Clean(c);
      CompsOne(c);
      TextStep(st);
      NoComps();
      CompsConcat(if init == [] then "" else Text(init), c);
      assert init + [c] == st;
    }
  }

  // ----- the buffer algorithm -----

  datatype Outcome = Fits(st: seq<string>) | TooLong

  /** The fold with the buffer's limit: a component that does not fit with its
      slash and the terminator ends it. */
  ghost function FoldIn(st: seq<string>, cs: seq<string>, cap: nat): (r: Outcome)
    ensures r.Fits? ==> r.st == Fold(st, cs)
    decreases cs
  {
    if cs == [] then Fits(st)
    else if cs[0] != "." && cs[0] != ".." && |Trail(st)| + |cs[0]| + 1 >= cap then TooLong
    else FoldIn(Push(st, cs[0]), cs[1..], cap)
  }

  /** What is canonicalised: the path, or the directory and the path; none if it
      exceeds the buffer. The directory is cut to the buffer first. */
  function Joined(path: string, cwd: string): string {
    if path != "" && path[0] == '/' then path
    else
      var d := if |cwd| > MAX_PATH - 1 then cwd[..MAX_PATH - 1] else cwd;
      var e := if d == "" then "/" else d;
      (if e[|e| - 1] != '/' && |e| < MAX_PATH - 1 then e + "/" else e) + path
  }

  lemma TrailNone()
    ensures Trail([]) == "/" && Text([]) == "/"
  {
  }

  lemma TrailPush(st: seq<string>, c: string)
    ensures Trail(st + [c]) == Trail(st) + c + "/"
  {
    assert (st + [c])[..|st|] == st;
  }

  lemma CompsSlash(s: string, i: nat)
    requires i < |s| && s[i] == '/'
    ensures Comps(s[i..]) == Comps(s[i + 1..])
  {
    assert s[i..][1..] == s[i + 1..];
  }

  lemma CompsSegment(s: string, i: nat, j: nat)
    requires i < j <= |s| && (forall k :: i <= k < j ==> s[k] != '/') && (j < |s| ==> s[j] == '/')
    ensures Comps(s[i..]) == [s[i..j]] + Comps(s[j..]) && Segment(s[i..j])
  {
    var t := s[i..];
    assert SegLen(t) == j - i;
    assert t[..j - i] == s[i..j] && t[j - i..] == s[j..];
  }

  method EndOfSegment(s: string, i: nat) returns (j: nat)
    requires i < |s| && s[i] != '/'
    ensures i < j <= |s| && (forall k :: i <= k < j ==> s[k] != '/') && (j < |s| ==> s[j] == '/')
  {
    j := i;
    while j < |s| && s[j] != '/'
      invariant i <= j <= |s| && forall k :: i <= k < j ==> s[k] != '/'
    {
      j := j + 1;
    }
  }

  /** Drop the last component from the buffer, staying at the root. */
  method WalkBack(out: array<char>, oi: nat, ghost st: seq<string>) returns (j: nat)
    requires 1 <= oi <= out.Length && out[..oi] == Trail(st) && AllClean(st)
    ensures 1 <= j <= oi && out[..j] == Trail(Push(st, ".."))
  {
    hide Trail, AllClean;
    TrailNone();
    Finish(st);
    j := oi;
    if oi > 1 {
      ghost var m := LastSegment(st, out[..oi]);
      j := oi - 1;
      while j > 1 && out[j - 1] != '/'
        invariant m <= j < oi
      {
        j := j - 1;
      }
      assert out[..oi][..m] == out[..m];
    }
  }

  /** Where the last component of the buffer starts. */
  lemma LastSegment(st: seq<string>, s: string) returns (m: nat)
    requires st != [] && AllClean(st) && s == Trail(st)
    ensures 1 <= m < |s| && s[..m] == Trail(Push(st, "..")) && s[m - 1] == '/'
    ensures forall k :: m <= k < |s| - 1 ==> s[k] != '/'
  {
    hide Trail;
    var init, c := st[..|st| - 1], st[|st| - 1];
    assert init + [c] == st;
    TrailPush(init, c);
    m := |Trail(init)|;
    assert Clean(c);
    forall k | m <= k < |s| - 1 ensures s[k] != '/' {
      assert s[k] == c[k - m];
    }
  }

  method Append(out: array<char>, oi: nat, c: string, ghost st: seq<string>) returns (j: nat)
    requires 1 <= oi && oi + |c| + 1 < out.Length && out[..oi] == Trail(st)
    modifies out
    ensures j == oi + |c| + 1 && out[..j] == Trail(st + [c])
  {
    hide Trail;
    TrailPush(st, c);
    j := oi;
    var k := 0;
    while k < |c|
      invariant 0 <= k <= |c| && j == oi + k && out[..j] == Trail(st) + c[..k]
    {
      out[j] := c[k];
      j := j + 1;
      k := k + 1;
    }
    out[j] := '/';
    j := j + 1;
  }

  lemma Finish(st: seq<string>)
    requires AllClean(st)
    ensures |Trail(st)| == 1 <==> st == []
    ensures Text(st) == if st == [] then Trail(st) else Trail(st)[..|Trail(st)| - 1]
  {
    if st != [] {
      assert Trail(st) == Trail(st[..|st| - 1]) + st[|st| - 1] + "/";
    }
  }

  /** A segment fits behind a buffer of the given length. */
  predicate Pushes(c: string, oi: nat, cap: nat) { c == "." || c == ".." || oi + |c| + 1 < cap }

  /** One segment into the buffer; 0 when it does not fit. */
  method PutSegment(out: array<char>, oi: nat, c: string, ghost st: seq<string>)
    returns (j: nat, ghost st': seq<string>)
    requires 1 <= oi < out.Length && out[..oi] == Trail(st) && AllClean(st) && c != "" && forall k :: 0 <= k < |c| ==>
      c[k] != '/'
    modifies out
    ensures j < out.Length && (j > 0 <==> Pushes(c, oi, out.Length))
    ensures j > 0 ==> st' == Push(st, c) && out[..j] == Trail(st') && AllClean(st')
  {
    hide Trail;
    j, st' := oi, st;
    if c == ".." {
      j := WalkBack(out, oi, st);
      st' := Push(st, c);
    } else if c != "." {
      if oi + |c| + 1 >= out.Length {
        return 0, st;
      }
      j := Append(out, oi, c, st);
      st' := st + [c];
    }
  }

  lemma FoldSegment(st: seq<string>, c: string, rest: seq<string>, cap: nat)
    requires AllClean(st)
    ensures Pushes(c, |Trail(st)|, cap) ==> FoldIn(st, [c] + rest, cap) == FoldIn(Push(st, c), rest, cap)
    ensures !Pushes(c, |Trail(st)|, cap) ==> FoldIn(st, [c] + rest, cap).TooLong?
  {
    assert ([c] + rest)[1..] == rest;
  }

  lemma FoldNone(st: seq<string>, cap: nat)
    ensures FoldIn(st, [], cap) == Fits(st)
  {
  }

  lemma NoneClean()
    ensures AllClean([])
  {
  }

  /** Canonicalise into a buffer, in place: ".." walks back over the last
      component. Returns the length of the result, or -1. */
  method CanonInto(path: string, cwd: string, out: array<char>) returns (n: int)
    requires 2 <= out.Length
    modifies out
    ensures var r := FoldIn([], Comps(Joined(path, cwd)), out.Length);
      if |Joined(path, cwd)| <= MAX_PATH - 1 && r.Fits?
      then 0 <= n < out.Length && out[..n] == Text(r.st)
      else n == -1
  {
    hide Comps, Fold, FoldIn, Trail, Text, Joined, AllClean, Pushes, Push;
    var tmp := Joined(path, cwd);
    if |tmp| > MAX_PATH - 1 {
      return -1;
    }
    var oi, si := 1, 0;
    out[0] := '/';
    ghost var st: seq<string> := [];
    TrailNone();
    NoneClean();
    assert tmp[0..] == tmp;
    if tmp != "" && tmp[0] == '/' {
      CompsSlash(tmp, 0);
      si := 1;
    }
    while si < |tmp|
      invariant 0 <= si <= |tmp| && 1 <= oi < out.Length && out[..oi] == Trail(st) && AllClean(st)
      invariant FoldIn([], Comps(tmp), out.Length) == FoldIn(st, Comps(tmp[si..]), out.Length)
    {
      if tmp[si] == '/' {
        CompsSlash(tmp, si);
        si := si + 1;
      } else {
        var seg := si;
        si := EndOfSegment(tmp, si);
        CompsSegment(tmp, seg, si);
        var c := tmp[seg..si];
        ghost var was := st;
        oi, st := PutSegment(out, oi, c, st);
        FoldSegment(was, c, Comps(tmp[si..]), out.Length);
        if oi == 0 {
          return -1;
        }
      }
    }
    assert tmp[si..] == "";
    NoComps();
    FoldNone(st, out.Length);
    Finish(st);
    if oi > 1 {
      oi := oi - 1;
    }
    n := oi;
  }

  // ----- laws of canonicalisation -----

  /** The stack a path stands for inside a process's root. */
  ghost function Local(path: string, cwd: string): Outcome {
    if |Joined(path, cwd)| <= MAX_PATH - 1 then FoldIn([], Comps(Joined(path, cwd)), MAX_PATH) else TooLong
  }

  lemma LocalClean(path: string, cwd: string)
    ensures Local(path, cwd).Fits? ==> AllClean(Local(path, cwd).st)
  {
    hide Comps, Joined, Fold, FoldIn;
    CompsSegments(Joined(path, cwd));
    FoldClean([], Comps(Joined(path, cwd)));
  }

  lemma {:induction false} TrailGrows(st: seq<string>, i: nat)
    requires i <= |st|
    ensures |Trail(st[..i])| <= |Trail(st)|
  {
    if i < |st| {
      TrailGrows(st[..|st| - 1], i);
      assert st[..|st| - 1][..i] == st[..i];
    } else {
      assert st[..i] == st;
    }
  }

  /** What fits with its slash and terminator stays below the limit. */
  lemma {:induction false} FoldInSize(st: seq<string>, cs: seq<string>, cap: nat)
    requires |Trail(st)| < cap
    ensures FoldIn(st, cs, cap).Fits? ==> |Trail(FoldIn(st, cs, cap).st)| < cap
    decreases cs
  {
    hide Trail;
    if cs != [] {
      var c := cs[0];
      TrailPush(st, c);
      if st != [] {
        TrailGrows(st, |st| - 1);
      }
      if |Trail(Push(st, c))| < cap {
        FoldInSize(Push(st, c), cs[1..], cap);
      }
    }
  }

  lemma {:induction false} FoldInClean(st: seq<string>, cs: seq<string>, cap: nat)
    requires AllClean(cs) && |Trail(st + cs)| < cap
    ensures FoldIn(st, cs, cap) == Fits(st + cs)
    decreases cs
  {
    hide Trail;
    if cs == [] {
      assert st + cs == st;
    } else {
      assert (st + [cs[0]]) + cs[1..] == st + cs;
      TrailPush(st, cs[0]);
      TrailGrows(st + cs, |st| + 1);
      assert (st + cs)[..|st| + 1] == st + [cs[0]];
      FoldInClean(st + [cs[0]], cs[1..], cap);
    }
  }

  /** Canonicalising a canonical path changes nothing, from any directory. */
  lemma Idempotent(path: string, cwd: string, other: string)
    requires Local(path, cwd).Fits?
    ensures Local(Text(Local(path, cwd).st), other) == Local(path, cwd)
  {
    hide Comps, Fold, FoldIn, Trail, Joined;
    var st := Local(path, cwd).st;
    LocalClean(path, cwd);
    TrailNone();
    FoldInSize([], Comps(Joined(path, cwd)), MAX_PATH);
    TextSize(st);
    JoinedAbsolute(Text(st), other);
    CompsText(st);
    assert [] + st == st;
    FoldInClean([], st, MAX_PATH);
  }

  lemma TextSize(st: seq<string>)
    requires AllClean(st)
    ensures |Text(st)| == (if st == [] then 1 else |Trail(st)| - 1) && Text(st) != "" && Text(st)[0] == '/'
    ensures st != [] ==> Text(st)[|Text(st)| - 1] != '/'
  {
    Finish(st);
    if st != [] {
      assert Clean(st[|st| - 1]);
      assert Trail(st) == Trail(st[..|st| - 1]) + st[|st| - 1] + "/";
    }
  }

  lemma JoinedAbsolute(path: string, cwd: string)
    requires path != "" && path[0] == '/'
    ensures Joined(path, cwd) == path
  {
  }

  /** Resolving q after a change of directory to p is resolving p/q before it. */
  lemma ChdirComposes(p: string, q: string, cwd: string)
    requires p != "" && (q == "" || q[0] != '/')
    requires Local(p, cwd).Fits? && Local(p + "/" + q, cwd).Fits? && Local(q, Text(Local(p, cwd).st)).Fits?
    ensures Local(p + "/" + q, cwd) == Local(q, Text(Local(p, cwd).st))
  {
    hide Comps, Fold, FoldIn, Trail, Joined, Text;
    var st := Local(p, cwd).st;
    LocalClean(p, cwd);
    JoinedTail(p, q, cwd);
    CompsConcat(Joined(p, cwd), q);
    FoldConcat([], Comps(Joined(p, cwd)), Comps(q));
    TrailNone();
    FoldInSize([], Comps(Joined(p, cwd)), MAX_PATH);
    JoinedFrom(q, st);
    FoldConcat([], st, Comps(q));
    FoldOfClean([], st);
    assert [] + st == st;
  }

  lemma JoinedTail(p: string, q: string, cwd: string)
    requires p != ""
    ensures Joined(p + "/" + q, cwd) == Joined(p, cwd) + "/" + q
  {
    assert (p + "/" + q)[0] == p[0];
  }

  lemma JoinedFrom(q: string, st: seq<string>)
    requires AllClean(st) && |Trail(st)| < MAX_PATH && (q == "" || q[0] != '/')
    ensures Comps(Joined(q, Text(st))) == st + Comps(q)
  {
    hide Comps, Trail, Text;
    TextSize(st);
    TrailNone();
    if st == [] {
      assert Joined(q, Text(st)) == "" + "/" + q;
      NoComps();
      CompsConcat("", q);
    } else {
      assert Joined(q, Text(st)) == Text(st) + "/" + q;
      CompsText(st);
      CompsConcat(Text(st), q);
    }
  }

  // ----- roots -----

  function Cut(s: string): string { if |s| > MAX_PATH - 1 then s[..MAX_PATH - 1] else s }

  function Unslashed(s: string): string { if s != "" && s[|s| - 1] == '/' then s[..|s| - 1] else s }

  /** The root in front of a path inside it, cut to the buffer. */
  function Under(root: string, local: string): string {
    if root == "/" || root == "" then Cut(local) else Cut(Unslashed(Cut(root)) + local)
  }

  /** Nothing was cut. */
  predicate Room(root: string, local: string) {
    |root| < MAX_PATH && |Unslashed(root)| + |local| < MAX_PATH && |local| < MAX_PATH
  }

  lemma CompsUnslashed(s: string)
    ensures Comps(Unslashed(s)) == Comps(s)
  {
    if s != "" && s[|s| - 1] == '/' {
      var t := s[..|s| - 1];
      assert s == t + "/" + "";
      NoComps();
      CompsConcat(t, "");
    }
  }

  /** A resolved path always has the root's components first. Below them it goes
      down through the names of the canonical path exactly when nothing was cut; a
      cut always loses or shortens a name. */
  lemma Contained(root: string, path: string, cwd: string)
    requires Local(path, cwd).Fits? && |root| < MAX_PATH
    ensures var st := Local(path, cwd).st; var name := Under(root, Text(st));
      && AllClean(st) && Comps(root) <= Comps(name)
      && (Comps(name) == Comps(root) + st <==> Room(root, Text(st)) || st == [])
  {
    hide Comps, Fold, FoldIn, Trail, Joined, Text, Local, Under, Room, Unslashed;
    var st := Local(path, cwd).st;
    LocalClean(path, cwd);
    TextSize(st);
    LocalSize(path, cwd);
    CompsText(st);
    RootComps();
    var local := Text(st);
    var r, n := UnderPart(root, local);
    CompsUnslashed(root);
    if n == 0 {
      assert local[..n] == "" && r + "" == r;
      assert Comps(root) + [] == Comps(root);
    } else {
      RootJoin(r, local[..n]);
    }
    if n == |local| {
      assert local[..n] == local;
    } else if st != [] {
      CutShort(st, n);
      var cr, x := Comps(root), if n == 0 then [] else Comps(local[..n]);
      assert (cr + x)[|cr|..] == x && (cr + st)[|cr|..] == st;
    } else {
      assert n == 0 && Comps(root) + st == Comps(root);
    }
  }

  /** A root that fits is kept whole, so only the path inside it is cut. */
  lemma UnderPart(root: string, local: string) returns (r: string, n: nat)
    requires |root| < MAX_PATH && 0 < |local| < MAX_PATH
    ensures r == (if root == "/" || root == "" then "" else Unslashed(root)) && n <= |local| &&
      Under(root, local) == r + local[..n]
    ensures n == |local| <==> Room(root, local)
  {
    r := if root == "/" || root == "" then "" else Unslashed(root);
    n := if |r| + |local| < MAX_PATH then |local| else MAX_PATH - 1 - |r|;
    assert local[..|local|] == local;
    assert (r + local)[..|r| + n] == r + local[..n];
  }

  lemma LocalSize(path: string, cwd: string)
    requires Local(path, cwd).Fits?
    ensures 0 < |Text(Local(path, cwd).st)| < MAX_PATH && Text(Local(path, cwd).st)[0] == '/'
    ensures Local(path, cwd).st == [] ==> |Text(Local(path, cwd).st)| == 1
  {
    hide Comps, Fold, FoldIn, Trail, Joined;
    LocalClean(path, cwd);
    TrailNone();
    FoldInSize([], Comps(Joined(path, cwd)), MAX_PATH);
    TextSize(Local(path, cwd).st);
  }

  lemma {:induction false} TrailCons(c: string, rest: seq<string>)
    ensures |Trail([c] + rest)| == |Trail(rest)| + |c| + 1
  {
    hide Trail;
    TrailNone();
    if rest == [] {
      TrailPush([], c);
      assert [] + [c] == [c] + rest;
    } else {
      var n := |rest| - 1;
      TrailCons(c, rest[..n]);
      TrailPush([c] + rest[..n], rest[n]);
      TrailPush(rest[..n], rest[n]);
      assert [c] + rest == ([c] + rest[..n]) + [rest[n]] && rest == rest[..n] + [rest[n]];
    }
  }

  /** A path has at most as many characters in components as it is long. */
  lemma {:induction false} CompsRoom(s: string)
    ensures |Trail(Comps(s))| <= |s| + if s == "" || s[0] == '/' then 1 else 2
    decreases |s|
  {
    hide Comps, Trail, SegLen;
    NoComps();
    TrailNone();
    if s != "" {
      CompsHead(s);
      if s[0] == '/' {
        CompsRoom(s[1..]);
      } else {
        var n := SegLen(s);
        CompsRoom(s[n..]);
        TrailCons(s[..n], Comps(s[n..]));
      }
    }
  }

  lemma CutShort(st: seq<string>, n: nat)
    requires AllClean(st) && st != [] && n < |Text(st)| && Text(st)[0] == '/'
    ensures Comps(Text(st)[..n]) != st
  {
    hide Comps, Trail, Text;
    NoComps();
    CompsRoom(Text(st)[..n]);
    Finish(st);
  }

  /** What a cut can do: a name that starts with two dots is cut to the two dots. */
  lemma CutName()
    ensures var long := seq(249, _ => 'a'); var path := "/" + long + "/..x";
      && Local(path, "/") == Fits([long, "..x"])
      && Comps(Under("/r", Text([long, "..x"]))) == ["r", long, ".."]
  {
    hide Comps, Trail, Text, FoldIn;
    var long: string := seq(249, _ => 'a');
    var st := [long, "..x"];
    var path := "/" + long + "/..x";
    assert AllClean(st);
    CompsOne(long);
    CompsOne("..x");
    CompsOne("..");
    CompsOne("r");
    NoComps();
    assert path == "" + "/" + (long + "/" + "..x");
    CompsConcat("", long + "/" + "..x");
    CompsConcat(long, "..x");
    assert Comps(path) == st;
    FoldTwo(long, "..x");
    TextTwo(long, "..x");
    assert Joined(path, "/") == path;
    assert "/" + long + "/" + "..x" == "/" + long + "/..x";
    assert Under("/r", "/" + long + "/..x") == "/r" + "/" + (long + "/" + "..");
    CompsConcat("/r", long + "/" + "..");
    CompsConcat(long, "..");
    assert "/r" == "" + "/" + "r";
    CompsConcat("", "r");
    assert [] + ["r"] == ["r"] && ["r"] + ([long] + [".."]) == ["r", long, ".."];
  }

  lemma FoldTwo(a: string, b: string)
    requires Clean(a) && Clean(b) && |a| + |b| + 4 <= MAX_PATH
    ensures FoldIn([], [a, b], MAX_PATH) == Fits([a, b])
  {
    hide Trail;
    TrailNone();
    TrailPush([], a);
    assert [] + [a] == [a] && [a] + [b] == [a, b];
    assert FoldIn([a], [b], MAX_PATH) == FoldIn([a, b], [], MAX_PATH);
    assert [a, b][1..] == [b] && [b][1..] == [];
  }

  lemma TextTwo(a: string, b: string)
    requires Clean(a) && Clean(b)
    ensures Text([a, b]) == "/" + a + "/" + b
  {
    hide Trail;
    TrailNone();
    TrailPush([], a);
    TrailPush([a], b);
    assert [] + [a] == [a] && [a] + [b] == [a, b];
    Finish([a, b]);
  }

  lemma RootJoin(r: string, local: string)
    requires local != "" && local[0] == '/'
    ensures Comps(r + local) == Comps(r) + Comps(local)
  {
    hide Comps;
    var rest := local[1..];
    assert local == "" + "/" + rest && r + local == r + "/" + rest;
    CompsConcat(r, rest);
    CompsConcat("", rest);
    NoComps();
    assert [] + Comps(rest) == Comps(rest);
  }

  lemma RootComps()
    ensures Comps("/") == [] && Comps("") == []
  {
  }

  datatype Dirs = Dirs(root: string, cwd: string)

  datatype Resolved = Path(name: string) | NoPath

  /** Resolve a path against a process's directory and root. */
  method Resolve(d: Dirs, path: string) returns (r: Resolved)
    ensures r == Meaning(d, path)
  {
    hide Comps, Joined, Text, FoldIn, Under;
    var buf := new char[MAX_PATH];
    var n := CanonInto(path, if d.cwd == "" then "/" else d.cwd, buf);
    if n == -1 {
      return NoPath;
    }
    return Path(Under(d.root, buf[..n]));
  }

  /** What a path stands for: the root in front of its canonical form. */
  ghost function Meaning(d: Dirs, path: string): Resolved {
    var l := Local(path, At(d));
    if l.Fits? then Path(Under(d.root, Text(l.st))) else NoPath
  }

  /** Under a root, resolving q after chdir(p) is resolving p/q before it. */
  lemma ChdirResolves(d: Dirs, p: string, q: string)
    requires p != "" && (q == "" || q[0] != '/') && !Slashed(d.root)
    requires Local(p, At(d)).Fits? && Room(d.root, Text(Local(p, At(d)).st))
    requires Local(p + "/" + q, At(d)).Fits? && Local(q, Text(Local(p, At(d)).st)).Fits?
    ensures var name := Under(d.root, Text(Local(p, At(d)).st));
      Meaning(d.(cwd := Inside(d.root, name)), q) == Meaning(d, p + "/" + q)
  {
    hide Comps, Joined, Text, FoldIn, Local;
    TextThere(p, At(d));
    ChdirComposes(p, q, At(d));
    var local := Text(Local(p, At(d)).st);
    assert Inside(d.root, Under(d.root, local)) == local;
  }

  function At(d: Dirs): string { if d.cwd == "" then "/" else d.cwd }

  /** Change the working directory; isDir says whether the path names one. The
      new directory is stored relative to the root. */
  method Chdir(d: Dirs, path: string, isDir: bool) returns (ok: bool, d': Dirs)
    ensures ok <==>
      isDir && Local(path, At(d)).Fits? && (Trivial(d.root) || d.root <= Under(d.root, Text(Local(path, At(d)).st)))
    ensures d' == if ok then d.(cwd := Inside(d.root, Under(d.root, Text(Local(path, At(d)).st)))) else d
    ensures isDir && Local(path, At(d)).Fits? && Room(d.root, Text(Local(path, At(d)).st)) && !Slashed(d.root) ==> ok
    ensures ok && Room(d.root, Text(Local(path, At(d)).st)) && !Slashed(d.root) ==>
      d'.cwd == Text(Local(path, At(d)).st)
  {
    hide Comps, Joined, Text, FoldIn, Local;
    d' := d;
    var r := Resolve(d, path);
    if r.NoPath? || !isDir {
      return false, d;
    }
    UnderSize(d.root, Text(Local(path, At(d)).st));
    ghost var local := Text(Local(path, At(d)).st);
    TextThere(path, At(d));
    var ri := 0;
    if d.root != "/" && d.root != "" {
      while ri < |d.root| && ri < |r.name| && r.name[ri] == d.root[ri]
        invariant 0 <= ri <= |d.root| && ri <= |r.name| && r.name[..ri] == d.root[..ri]
      {
        ri := ri + 1;
      }
      if ri < |d.root| {
        return false, d;
      }
    }
    var tail := r.name[ri..];
    var cwd := if tail == "" then "/" else Cut(tail);
    return true, d.(cwd := cwd);
  }

  predicate Trivial(root: string) { root == "/" || root == "" }

  /** What is left of a path behind the root; the root itself is "/". */
  ghost function Inside(root: string, name: string): string {
    var tail := if Trivial(root) || |name| < |root| then name else name[|root|..];
    if tail == "" then "/" else tail
  }

  /** Without trailing slashes, except for a path of one character. */
  ghost function Bare(s: string): string {
    if |s| > 1 && s[|s| - 1] == '/' then Bare(s[..|s| - 1]) else s
  }

  predicate Slashed(root: string) { root != "/" && root != "" && root[|root| - 1] == '/' }

  lemma TextThere(path: string, cwd: string)
    ensures Local(path, cwd).Fits? ==> Text(Local(path, cwd).st) != ""
  {
    hide Comps, Joined, FoldIn, Local;
    LocalClean(path, cwd);
    if Local(path, cwd).Fits? {
      TextSize(Local(path, cwd).st);
    }
  }

  /** Change the root; the working directory becomes the new root. */
  method Chroot(d: Dirs, path: string, isDir: bool) returns (ok: bool, d': Dirs)
    ensures ok <==> isDir && Local(path, At(d)).Fits?
    ensures d' == if ok then Dirs(Bare(Under(d.root, Text(Local(path, At(d)).st))), "/") else d
    ensures ok ==> d'.cwd == "/" && !Slashed(d'.root) && |d'.root| < MAX_PATH
    ensures ok && |d.root| < MAX_PATH ==> Comps(d.root) <= Comps(d'.root)
    ensures ok && Room(d.root, Text(Local(path, At(d)).st)) ==> Comps(d'.root) == Comps(d.root) + Local(path, At(d)).st
  {
    hide Comps, Joined, Text, FoldIn, Local, Under;
    d' := d;
    var r := Resolve(d, path);
    if r.NoPath? || !isDir {
      return false, d;
    }
    ghost var st := Local(path, At(d)).st;
    UnderSize(d.root, Text(st));
    if |d.root| < MAX_PATH {
      Contained(d.root, path, At(d));
    }
    var root := Cut(r.name);
    while |root| > 1 && root[|root| - 1] == '/'
      invariant |root| < MAX_PATH && Comps(root) == Comps(r.name) && Bare(root) == Bare(r.name)
      decreases |root|
    {
      CompsUnslashed(root);
      root := root[..|root| - 1];
    }
    return true, Dirs(root, "/");
  }

  lemma UnderSize(root: string, local: string)
    ensures |Under(root, local)| < MAX_PATH
  {
  }

  // ----- runs -----

  datatype Step =
    | ChangeDir(i: nat, path: string, isDir: bool) | ChangeRoot(i: nat, path: string, isDir: bool) | Clone(i: nat)

  ghost predicate Below(base: seq<string>, ps: seq<Dirs>) {
    forall i :: 0 <= i < |ps| ==> !Slashed(ps[i].root) && |ps[i].root| < MAX_PATH && base <= Comps(ps[i].root)
  }

  /** One process changes its directories, or a copy of it is added. */
  ghost predicate Follows(ps: seq<Dirs>, step: Step, ps': seq<Dirs>) {
    if step.i >= |ps| then ps' == ps
    else if step.Clone? then ps' == ps + [ps[step.i]]
    else
      var d, l := ps[step.i], Local(step.path, At(ps[step.i]));
      var name := if l.Fits? then Under(d.root, Text(l.st)) else "";
      if !step.isDir || !l.Fits? then ps' == ps
      else if step.ChangeRoot? then ps' == ps[step.i := Dirs(Bare(name), "/")]
      else ps' == ps[step.i := if Trivial(d.root) || d.root <= name then d.(cwd := Inside(d.root, name)) else d]
  }

  /** Over every run of chdir, chroot and fork, no process gets a root above the
      one that all started under, so every path that a process resolves lies under
      that root. */
  method Run(ps: seq<Dirs>, steps: seq<Step>, ghost base: seq<string>)
    returns (ps': seq<Dirs>, ghost trace: seq<seq<Dirs>>)
    requires Below(base, ps)
    ensures |trace| == |steps| + 1 && trace[0] == ps && trace[|steps|] == ps'
    ensures forall k: nat :: k < |steps| ==> Follows(trace[k], steps[k], trace[k + 1])
    ensures Below(base, ps')
  {
    hide Comps, Joined, Text, FoldIn, Local, Under, Room, Follows, Below;
    ps', trace := ps, [ps];
    var k := 0;
    while k < |steps|
      invariant 0 <= k <= |steps| && |trace| == k + 1 && trace[0] == ps && trace[k] == ps'
      invariant forall m: nat :: m < k ==> Follows(trace[m], steps[m], trace[m + 1])
      invariant Below(base, ps')
    {
      ps' := Take(ps', steps[k], base);
      trace := trace + [ps'];
      k := k + 1;
    }
  }

  method Take(ps: seq<Dirs>, step: Step, ghost base: seq<string>) returns (ps': seq<Dirs>)
    ensures Follows(ps, step, ps')
    ensures Below(base, ps) ==> Below(base, ps')
  {
    hide Comps, Joined, Text, FoldIn, Local, Under, Room, Inside, Bare;
    ps' := ps;
    if step.i < |ps| {
      var d := ps[step.i];
      if step.Clone? {
        ps' := ps + [d];
      } else if step.ChangeDir? {
        var _, d' := Chdir(d, step.path, step.isDir);
        ps' := ps[step.i := d'];
      } else {
        var _, d' := Chroot(d, step.path, step.isDir);
        ps' := ps[step.i := d'];
      }
      assert step.Clone? || ps[step.i := ps[step.i]] == ps;
    }
  }

  /** A path that any process of such a run resolves: below its root there are only
      plain names, unless the path was cut. */
  lemma StaysInside(base: seq<string>, d: Dirs, path: string)
    requires base <= Comps(d.root) && |d.root| < MAX_PATH && Local(path, At(d)).Fits?
    ensures var st := Local(path, At(d)).st; var cs := Comps(Under(d.root, Text(st)));
      && base <= Comps(d.root) <= cs
      && (Room(d.root, Text(st)) ==> forall i :: |Comps(d.root)| <= i < |cs| ==> Clean(cs[i]))
  {
    hide Comps, Joined, Text, FoldIn, Local, Under, Room;
    Contained(d.root, path, At(d));
  }
}
