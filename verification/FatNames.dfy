/**
 File names between the user's form and the eleven bytes of a directory entry.
 */
module FatNames {
  import opened Octets
  import opened FatLayout
  import opened FatSlots

  const DOT: byte := 0x2E
  const SPACE: byte := 0x20

  function Upper(c: byte): byte { if 0x61 <= c <= 0x7A then c - 32 else c }

  function Lower(c: byte): byte { if 0x41 <= c <= 0x5A then c + 32 else c }

  /** How many of the first n characters come before a dot or the end. */
  function BaseLen(user: seq<byte>, n: nat): (k: nat)
    ensures k <= n && k <= |user| && (forall i :: 0 <= i < k ==> user[i] != DOT)
    ensures k < n && k < |user| ==> user[k] == DOT
  {
    if n == 0 || user == [] || user[0] == DOT then 0 else 1 + BaseLen(user[1..], n - 1)
  }

  /** Where the extension starts: after the dot, or where the base was cut. */
  function ExtStart(user: seq<byte>): (j: nat)
    ensures j <= |user|
  {
    var k := BaseLen(user, 8);
    if k < |user| && user[k] == DOT then k + 1 else k
  }

  function Uppers(s: seq<byte>): (r: seq<byte>)
    ensures |r| == |s| && forall i :: 0 <= i < |s| ==> r[i] == Upper(s[i])
  {
    seq(|s|, i requires 0 <= i < |s| => Upper(s[i]))
  }

  function Lowers(s: seq<byte>): (r: seq<byte>)
    ensures |r| == |s| && forall i :: 0 <= i < |s| ==> r[i] == Lower(s[i])
  {
    seq(|s|, i requires 0 <= i < |s| => Lower(s[i]))
  }

  function Padded(s: seq<byte>, n: nat): (r: seq<byte>)
    requires |s| <= n
    ensures |r| == n && r[..|s|] == s && forall i :: |s| <= i < n ==> r[i] == SPACE
  {
    s + seq(n - |s|, _ => SPACE)
  }

  function ExtOf(user: seq<byte>): (e: seq<byte>)
    ensures |e| <= 3
  {
    var j := ExtStart(user);
    if |user| - j > 3 then user[j..j + 3] else user[j..]
  }

  /** The eleven bytes a user's name stands for. */
  function EntryName(user: seq<byte>): Name {
    Padded(Uppers(user[..BaseLen(user, 8)]), 8) + Padded(Uppers(ExtOf(user)), 3)
  }

  lemma Assembled(out: Name, base: seq<byte>, ext: seq<byte>)
    requires |base| <= 8 && |ext| <= 3
    requires forall m :: 0 <= m < 8 ==> out[m] == if m < |base| then Upper(base[m]) else SPACE
    requires forall m :: 8 <= m < 11 ==> out[m] == if m - 8 < |ext| then Upper(ext[m - 8]) else SPACE
    ensures out == Padded(Uppers(base), 8) + Padded(Uppers(ext), 3)
  {
    var b, e := Padded(Uppers(base), 8), Padded(Uppers(ext), 3);
    forall m | 0 <= m < 8 ensures b[m] == out[m] {
      assert m < |base| ==> b[m] == b[..|base|][m];
    }
    forall m | 0 <= m < 3 ensures e[m] == out[8 + m] {
      assert m < |ext| ==> e[m] == e[..|ext|][m];
      assert out[8 + m] == if m < |ext| then Upper(ext[m]) else SPACE;
    }
  }

  lemma ExtAt(user: seq<byte>, j: nat)
    requires j == ExtStart(user)
    ensures j <= |user| && |ExtOf(user)| == (if |user| - j > 3 then 3 else |user| - j)
    ensures ExtOf(user) == user[j..j + |ExtOf(user)|]
  {
  }

  lemma StartIs(user: seq<byte>, i: nat)
    requires i == BaseLen(user, 8)
    ensures ExtStart(user) == if i < |user| && user[i] == DOT then i + 1 else i
  {
  }

  lemma BaseLenIs(user: seq<byte>, i: nat)
    requires i <= 8 && i <= |user| && (forall k :: 0 <= k < i ==> user[k] != DOT)
    requires i == 8 || i == |user| || user[i] == DOT
    ensures BaseLen(user, 8) == i
  {
  }

  /** Written in place over spaces. */
  method FromDot(user: seq<byte>) returns (out: Name)
    ensures out == EntryName(user)
  {
    hide BaseLen, Padded, Uppers, Upper, ExtOf, ExtStart;
    var a := new byte[11](_ => SPACE);
    var i := 0;
    while i < 8 && i < |user| && user[i] != DOT
      invariant 0 <= i <= 8 && i <= |user| && forall k :: 0 <= k < i ==> user[k] != DOT
      invariant forall k :: 0 <= k < 11 ==> a[k] == if k < i then Upper(user[k]) else SPACE
    {
      a[i] := Upper(user[i]);
      i := i + 1;
    }
    BaseLenIs(user, i);
    StartIs(user, i);
    var j := if i < |user| && user[i] == DOT then i + 1 else i;
    ghost var ext := ExtOf(user);
    ExtAt(user, j);
    var k := 0;
    while k < 3 && j + k < |user|
      invariant 0 <= k <= |ext| && (k < |ext| <==> k < 3 && j + k < |user|)
      invariant forall m :: 0 <= m < 8 ==> a[m] == if m < i then Upper(user[m]) else SPACE
      invariant forall m :: 8 <= m < 11 ==> a[m] == if m - 8 < k then Upper(ext[m - 8]) else SPACE
    {
      a[8 + k] := Upper(user[j + k]);
      k := k + 1;
    }
    out := a[..];
    Assembled(out, user[..i], ext);
  }

  /** The part before the first space. */
  function Trimmed(s: seq<byte>): (r: seq<byte>) {
    if s == [] || s[0] == SPACE then [] else [s[0]] + Trimmed(s[1..])
  }

  lemma {:induction false} TrimPadded(s: seq<byte>, n: nat)
    requires |s| <= n && SPACE !in s
    ensures Trimmed(Padded(s, n)) == s
    decreases n
  {
    if s != [] {
      assert Padded(s, n)[1..] == Padded(s[1..], n - 1);
      TrimPadded(s[1..], n - 1);
      assert Padded(s, n)[0] == s[0];
    }
  }

  /** The user's form of an entry name. */
  function ToDot(n: Name): seq<byte> {
    Lowers(Trimmed(n[..8])) + if n[8] == SPACE then [] else [DOT] + Lowers(Trimmed(n[8..]))
  }

  predicate Plain(s: seq<byte>) { forall i :: 0 <= i < |s| ==> s[i] != SPACE && !(0x41 <= s[i] <= 0x5A) }

  predicate Shouted(s: seq<byte>) { forall i :: 0 <= i < |s| ==> s[i] != SPACE && !(0x61 <= s[i] <= 0x7A) }

  /** A base and an extension as the user writes them. */
  function Dotted(base: seq<byte>, ext: seq<byte>): seq<byte> { if ext == [] then base else base + [DOT] + ext }

  function Whole(base: seq<byte>, ext: seq<byte>): Name
    requires |base| <= 8 && |ext| <= 3
  {
    Padded(base, 8) + Padded(ext, 3)
  }

  lemma WholeToDot(base: seq<byte>, ext: seq<byte>)
    requires |base| <= 8 && |ext| <= 3 && SPACE !in base && SPACE !in ext
    ensures ToDot(Whole(base, ext)) == Dotted(Lowers(base), Lowers(ext))
  {
    hide Trimmed, Lowers;
    var n := Whole(base, ext);
    assert n[..8] == Padded(base, 8) && n[8..] == Padded(ext, 3);
    assert n[8] == Padded(ext, 3)[0];
    assert ext != [] ==> n[8] == ext[0] && ext[0] in ext;
    TrimPadded(base, 8);
    TrimPadded(ext, 3);
    assert Lowers(base) + [] == Lowers(base);
  }

  lemma DottedEntry(base: seq<byte>, ext: seq<byte>)
    requires |base| <= 8 && |ext| <= 3 && DOT !in base
    ensures EntryName(Dotted(base, ext)) == Whole(Uppers(base), Uppers(ext))
  {
    hide BaseLen, Padded, Uppers;
    var user := Dotted(base, ext);
    BaseIs(base, user);
    assert user[..|base|] == base;
    assert ext == [] ==> user[|base|..] == [];
    assert ext != [] ==> user[|base| + 1..] == ext;
  }

  lemma BaseIs(base: seq<byte>, user: seq<byte>)
    requires |base| <= 8 && DOT !in base && base <= user && (|user| > |base| ==> user[|base|] == DOT)
    ensures BaseLen(user, 8) == |base|
  {
  }

  lemma CaseBack(s: seq<byte>)
    ensures Plain(s) ==> Lowers(Uppers(s)) == s && SPACE !in Uppers(s)
    ensures Shouted(s) ==> Uppers(Lowers(s)) == s && SPACE !in s
    ensures DOT !in s ==> DOT !in Lowers(s)
  {
  }

  /** A name of at most eight and three lower-case characters comes back as it
      was given. */
  lemma UserRoundTrip(base: seq<byte>, ext: seq<byte>)
    requires |base| <= 8 && |ext| <= 3 && Plain(base) && Plain(ext) && DOT !in base
    ensures ToDot(EntryName(Dotted(base, ext))) == Dotted(base, ext)
  {
    hide ToDot, EntryName, Whole, Plain, Uppers, Lowers;
    DottedEntry(base, ext);
    CaseBack(base);
    CaseBack(ext);
    WholeToDot(Uppers(base), Uppers(ext));
  }

  /** A canonical entry name comes back from the form shown to the user. */
  lemma EntryRoundTrip(base: seq<byte>, ext: seq<byte>)
    requires |base| <= 8 && |ext| <= 3 && DOT !in base && Shouted(base) && Shouted(ext)
    ensures EntryName(ToDot(Whole(base, ext))) == Whole(base, ext)
  {
    hide ToDot, EntryName, Whole, Uppers, Lowers, Shouted;
    CaseBack(base);
    CaseBack(ext);
    WholeToDot(base, ext);
    DottedEntry(Lowers(base), Lowers(ext));
  }

  /** The names that entries are made from are proper unless they start with the
      deletion mark. */
  lemma EntryNameProper(user: seq<byte>)
    requires forall i :: 0 <= i < |user| ==> user[i] != 0
    ensures ProperName(EntryName(user)) <==> user == [] || user[0] != 0xE5
  {
    var k := BaseLen(user, 8);
    assert EntryName(user)[0] == Padded(Uppers(user[..k]), 8)[0];
    assert k > 0 ==> EntryName(user)[0] == Upper(user[0]);
  }
}
