/**
 The shell's line editor. Each key changes the buffer as a function of the text
 and cursor says, and the bytes it emits keep a one-row terminal in step.
 */
module LineEdit {
  const LINE_MAX := 512
  const HIST_MAX := 32
  const BS: char := 8 as char

  // ----- the terminal -----

  /** A row without end, blank where nothing was written. */
  datatype Term = Term(cells: map<nat, char>, cur: nat)

  ghost function Cell(t: Term, j: nat): char { if j in t.cells then t.cells[j] else ' ' }

  function Emit(t: Term, c: char): Term {
    if c == BS then Term(t.cells, if t.cur > 0 then t.cur - 1 else 0) else Term(t.cells[t.cur := c], t.cur + 1)
  }

  predicate Printable(c: char) { 0x20 <= c as int < 0x7F }

  ghost predicate AllPrintable(s: string) { forall i :: 0 <= i < |s| ==> Printable(s[i]) }

  /** The row that should show: the prompt, the text, blanks. */
  ghost function Want(text: string, j: nat): char {
    if j == 0 then '$' else if j == 1 then ' ' else if j < 2 + |text| then text[j - 2] else ' '
  }

  ghost predicate Shows(t: Term, text: string, pos: nat) {
    t.cur == 2 + pos && forall j: nat :: Cell(t, j) == Want(text, j)
  }

  // ----- words -----

  predicate Blank(c: char) { c == ' ' || c == '\t' }

  predicate WordStart(text: string, k: nat)
    requires k < |text|
  {
    !Blank(text[k]) && (k == 0 || Blank(text[k - 1]))
  }

  /** The last word start before k, or 0. */
  ghost function PrevWord(text: string, k: nat): (r: nat)
    requires k <= |text|
    ensures r <= k && (r == 0 || (r < k && WordStart(text, r))) && forall j :: r < j < k ==> !WordStart(text, j)
  {
    if k == 0 then 0 else if WordStart(text, k - 1) then k - 1 else PrevWord(text, k - 1)
  }

  /** The first word start from k on, or the end. */
  ghost function NextWord(text: string, k: nat): (r: nat)
    ensures k <= |text| ==> k <= r <= |text|
    ensures (r == |text| || (r < |text| && WordStart(text, r))) && forall j :: k <= j < r ==>
      j < |text| && !WordStart(text, j)
    decreases |text| - k
  {
    if k >= |text| then |text| else if WordStart(text, k) then k else NextWord(text, k + 1)
  }

  method WordLeft(text: string, pos: nat) returns (i: nat)
    requires pos <= |text|
    ensures i == PrevWord(text, pos)
  {
    if pos == 0 {
      return 0;
    }
    i := pos - 1;
    while i > 0 && Blank(text[i])
      invariant i < pos && PrevWord(text, pos) == PrevWord(text, i + 1)
    {
      i := i - 1;
    }
    while i > 0 && !Blank(text[i - 1])
      invariant i < pos && PrevWord(text, pos) == PrevWord(text, i + 1) && (i > 0 ==> !Blank(text[i]))
    {
      i := i - 1;
    }
  }

  method WordRight(text: string, pos: nat) returns (i: nat)
    requires pos <= |text|
    ensures i == NextWord(text, pos + 1) && pos <= i <= |text|
  {
    i := pos;
    while i < |text| && !Blank(text[i])
      invariant pos <= i <= |text|
      invariant i < |text| && i > pos ==> !Blank(text[i - 1])
      invariant NextWord(text, pos + 1) == NextWord(text, if i == pos then pos + 1 else i)
    {
      i := i + 1;
    }
    while i < |text| && Blank(text[i])
      invariant pos <= i <= |text|
      invariant i < |text| && i > pos && !Blank(text[i]) ==> Blank(text[i - 1])
      invariant NextWord(text, pos + 1) == NextWord(text, if i == pos then pos + 1 else i)
    {
      i := i + 1;
    }
  }

  // ----- what each key means -----

  /** The line being edited; hist is -1 for the live line, else the history entry
      shown, with the live line saved. */
  datatype Edit = Edit(text: string, pos: nat, hist: int, saved: string)

  ghost predicate EditOk(e: Edit, h: seq<string>, cap: nat) {
    && e.pos <= |e.text| < cap && AllPrintable(e.text) && -1 <= e.hist < |h|
    && |e.saved| < cap && AllPrintable(e.saved)
  }

  function Cut(s: string, n: nat): string { if |s| > n then s[..n] else s }

  ghost function Walk(e: Edit, to: int, h: seq<string>, cap: nat): Edit
    requires 0 < cap
  {
    if to < -1 || to >= |h| then e
    else
      var saved := if e.hist == -1 then e.text else e.saved;
      var text := if to == -1 then saved else Cut(h[to], cap - 1);
      Edit(text, |text|, to, saved)
  }

  ghost function Next(e: Edit, uc: int, h: seq<string>, cap: nat): Edit
    requires EditOk(e, h, cap) && 0 <= uc < 256
  {
    var t, p := e.text, e.pos;
    if uc == 0x08 || uc == 0x7F then (if p > 0 then e.(text := t[..p - 1] + t[p..], pos := p - 1) else e)
    else if uc == 0x95 then (if p < |t| then e.(text := t[..p] + t[p + 1..]) else e)
    else if uc == 0x85 || uc == 0x01 then e.(pos := 0)
    else if uc == 0x86 || uc == 0x05 then e.(pos := |t|)
    else if uc == 0x15 then e.(text := "", pos := 0)
    else if uc == 0x0B then e.(text := t[..p])
    else if uc == 0x83 then (if p > 0 then e.(pos := p - 1) else e)
    else if uc == 0x84 then (if p < |t| then e.(pos := p + 1) else e)
    else if uc == 0x93 then e.(pos := PrevWord(t, p))
    else if uc == 0x94 then e.(pos := NextWord(t, p + 1))
    else if uc == 0x81 then Walk(e, e.hist + 1, h, cap)
    else if uc == 0x82 then Walk(e, e.hist - 1, h, cap)
    else if uc < 0x20 || uc >= 0x80 || |t| + 1 >= cap then e
    else e.(text := t[..p] + [uc as char] + t[p..], pos := p + 1)
  }

  ghost predicate HistOk(h: seq<string>) { forall i :: 0 <= i < |h| ==> AllPrintable(h[i]) }

  lemma NextOk(e: Edit, uc: int, h: seq<string>, cap: nat)
    requires EditOk(e, h, cap) && 0 <= uc < 256 && HistOk(h)
    ensures EditOk(Next(e, uc, h, cap), h, cap)
  {
  }

  /** The line after some keys. */
  ghost function Typed(e: Edit, keys: seq<int>, h: seq<string>, cap: nat): (r: Edit)
    requires EditOk(e, h, cap) && HistOk(h) && forall k :: 0 <= k < |keys| ==> EditKey(keys[k])
    ensures EditOk(r, h, cap)
    decreases |keys|
  {
    if keys == [] then e
    else
      var f := Typed(e, keys[..|keys| - 1], h, cap);
      assert EditKey(keys[|keys| - 1]);
      NextOk(f, keys[|keys| - 1], h, cap);
      Next(f, keys[|keys| - 1], h, cap)
  }

  lemma TypedOn(e: Edit, keys: seq<int>, k: nat, h: seq<string>, cap: nat)
    requires EditOk(e, h, cap) && HistOk(h) && k < |keys| && forall i :: 0 <= i < |keys| ==> EditKey(keys[i])
    ensures Typed(e, keys[..k + 1], h, cap) == Next(Typed(e, keys[..k], h, cap), keys[k], h, cap)
  {
    hide Next, EditOk, AllPrintable;
    assert EditKey(keys[k]);
    assert keys[..k + 1][..k] == keys[..k];
  }

  function Times(n: nat, key: int): (s: seq<int>)
    ensures |s| == n && forall i :: 0 <= i < n ==> s[i] == key
  {
    seq(n, _ => key)
  }

  lemma {:induction false} Ups(e: Edit, h: seq<string>, cap: nat, n: nat)
    requires EditOk(e, h, cap) && HistOk(h) && e.hist == -1 && n <= |h|
    ensures Typed(e, Times(n, 0x81), h, cap) ==
      if n == 0 then e else var t := Cut(h[n - 1], cap - 1); Edit(t, |t|, n - 1, e.text)
  {
    if n > 0 {
      Ups(e, h, cap, n - 1);
      assert Times(n, 0x81)[..n - 1] == Times(n - 1, 0x81);
    }
  }

  lemma {:induction false} Downs(e: Edit, h: seq<string>, cap: nat, n: nat)
    requires EditOk(e, h, cap) && HistOk(h) && n <= e.hist + 1
    ensures Typed(e, Times(n, 0x82), h, cap) ==
      if n == 0 then e
      else var t := if n == e.hist + 1 then e.saved else Cut(h[e.hist - n], cap - 1); Edit(t, |t|, e.hist - n, e.saved)
  {
    if n > 0 {
      Downs(e, h, cap, n - 1);
      assert Times(n, 0x82)[..n - 1] == Times(n - 1, 0x82);
    }
  }

  /** Going any number of entries up into the history and as many down again brings
      the live line back, with the cursor at its end. */
  lemma UpThenDown(e: Edit, h: seq<string>, cap: nat, n: nat)
    requires EditOk(e, h, cap) && HistOk(h) && e.hist == -1 && 0 < n <= |h|
    ensures Typed(Typed(e, Times(n, 0x81), h, cap), Times(n, 0x82), h, cap) == Edit(e.text, |e.text|, -1, e.text)
  {
    hide Typed, Next;
    Ups(e, h, cap, n);
    Downs(Typed(e, Times(n, 0x81), h, cap), h, cap, n);
  }

  /** A character typed and rubbed out leaves the line as it was. */
  lemma TypeThenErase(e: Edit, uc: int, h: seq<string>, cap: nat)
    requires EditOk(e, h, cap) && 0x20 <= uc < 0x7F && |e.text| + 1 < cap
    ensures EditOk(Next(e, uc, h, cap), h, cap) && Next(Next(e, uc, h, cap), 0x08, h, cap) == e
  {
    var f := Next(e, uc, h, cap);
    assert f.text[..e.pos] == e.text[..e.pos] && f.text[e.pos + 1..] == e.text[e.pos..];
    assert e.text[..e.pos] + e.text[e.pos..] == e.text;
  }

  // ----- the history ring -----

  /** The slot of the i-th most recent entry. */
  function Slot(head: nat, i: nat): (r: nat)
    requires head < HIST_MAX && i < HIST_MAX
    ensures r < HIST_MAX
  {
    (head - 1 - i + HIST_MAX * 2) % HIST_MAX
  }

  lemma SlotNext(head: nat, i: nat)
    requires head < HIST_MAX && i < HIST_MAX
    ensures Slot((head + 1) % HIST_MAX, 0) == head
    ensures i + 1 < HIST_MAX ==> Slot((head + 1) % HIST_MAX, i + 1) == Slot(head, i)
    ensures Slot(head, i) == head <==> i == HIST_MAX - 1
  {
  }

  ghost function Recent(lines: seq<string>, head: nat, count: nat): (s: seq<string>)
    requires |lines| == HIST_MAX && head < HIST_MAX && count <= HIST_MAX
    ensures |s| == count && forall i :: 0 <= i < count ==> s[i] == lines[Slot(head, i)]
  {
    seq(count, i requires 0 <= i < count => lines[Slot(head, i)])
  }

  class History {
    const lines: array<string>
    var count: nat
    var head: nat

    ghost predicate Valid()
      reads this, lines
    {
      && lines.Length == HIST_MAX && count <= HIST_MAX && head < HIST_MAX
      && forall i :: 0 <= i < count ==> AllPrintable(lines[Slot(head, i)])
    }

    /** Most recent first. */
    ghost function Entries(): (s: seq<string>)
      reads this, lines
      requires Valid()
      ensures |s| == count && forall i :: 0 <= i < count ==> s[i] == lines[Slot(head, i)]
    {
      Recent(lines[..], head, count)
    }

    constructor ()
      ensures Valid() && Entries() == [] && fresh(lines)
    {
      lines := new string[HIST_MAX](_ => "");
      count, head := 0, 0;
    }

    /** Remember a line, unless it is empty or repeats the last one; the oldest of
        32 goes. */
    method Push(line: string)
      requires Valid() && AllPrintable(line)
      modifies this, lines
      ensures Valid()
      ensures Entries() == if line == "" || (old(count) > 0 && old(Entries())[0] == line) then old(Entries())
        else Kept([Cut(line, LINE_MAX - 1)] + old(Entries()))
    {
      hide Slot;
      if line == "" || (count > 0 && lines[Slot(head, 0)] == line) {
        return;
      }
      forall i | 0 <= i < HIST_MAX
        ensures Slot((head + 1) % HIST_MAX, 0) == head
        ensures i + 1 < HIST_MAX ==> Slot((head + 1) % HIST_MAX, i + 1) == Slot(head, i)
        ensures Slot(head, i) == head <==> i == HIST_MAX - 1
      {
        SlotNext(head, i);
      }
      ghost var es, h0, c0 := Entries(), head, count;
      lines[head] := Cut(line, LINE_MAX - 1);
      head := (head + 1) % HIST_MAX;
      if count < HIST_MAX {
        count := count + 1;
      }
      forall i | 0 <= i < count ensures lines[Slot(head, i)] == ([Cut(line, LINE_MAX - 1)] + es)[i] {
        if i > 0 {
          assert Slot(head, i) == Slot(h0, i - 1);
        }
      }
    }

    method Get(i: int) returns (found: bool, s: string)
      requires Valid()
      ensures found <==> 0 <= i < count
      ensures found ==> s == Entries()[i]
    {
      if i < 0 || i >= count {
        return false, "";
      }
      return true, lines[Slot(head, i)];
    }
  }

  ghost function Kept(es: seq<string>): seq<string> { if |es| > HIST_MAX then es[..HIST_MAX] else es }

  // ----- the editor -----

  class Editor {
    const buf: array<char>
    const past: History
    var len: nat
    var pos: nat
    var histPos: int
    var saved: string
    var term: Term

    ghost function View(): Edit
      reads this, buf
      requires len <= buf.Length
    {
      Edit(buf[..len], pos, histPos, saved)
    }

    /** The terminal shows the prompt and the text, with the cursor at pos. */
    ghost predicate Valid()
      reads this, buf, past, past.lines
    {
      && past.Valid() && 0 < buf.Length <= LINE_MAX && len <= buf.Length
      && EditOk(View(), past.Entries(), buf.Length) && Shows(term, buf[..len], pos)
    }

    /** A fresh line after the prompt was written. */
    constructor (cap: nat, past: History)
      requires past.Valid() && 0 < cap <= LINE_MAX
      ensures Valid() && View() == Edit("", 0, -1, "") && this.past == past && fresh(buf) && buf.Length == cap
    {
      buf := new char[cap](_ => ' ');
      this.past := past;
      len, pos, histPos, saved := 0, 0, -1, "";
      term := Term(map[0 := '$', 1 := ' '], 2);
      new;
      assert buf[..0] == "";
    }

    /** n backspaces. */
    method Back(n: nat)
      requires n <= term.cur
      modifies this`term
      ensures term == old(term).(cur := old(term).cur - n)
    {
      var i := 0;
      while i < n
        invariant 0 <= i <= n && term == old(term).(cur := old(term).cur - i)
      {
        term := Emit(term, BS);
        i := i + 1;
      }
    }

    /** Write characters of the buffer. */
    method Write(from: nat, to: nat)
      requires from <= to <= buf.Length && AllPrintable(buf[from..to])
      modifies this`term
      ensures term.cur == old(term).cur + (to - from)
      ensures forall j: nat :: Cell(term, j) == Over(old(term), buf[from..to], j)
    {
      ghost var t0 := term;
      var i := from;
      while i < to
        invariant from <= i <= to && term.cur == t0.cur + (i - from)
        invariant forall j: nat :: Cell(term, j) == Over(t0, buf[from..i], j)
      {
        assert buf[from..to][i - from] == buf[i];
        ghost var t1 := term;
        term := Emit(term, buf[i]);
        forall j: nat ensures Cell(term, j) == Over(t0, buf[from..i + 1], j) {
          assert Cell(t1, j) == Over(t0, buf[from..i], j);
        }
        i := i + 1;
      }
    }

    /** n blanks. */
    method Blanks(n: nat)
      modifies this`term
      ensures term.cur == old(term).cur + n
      ensures forall j: nat :: Cell(term, j) == if old(term).cur <= j < old(term).cur + n then
        ' ' else Cell(old(term), j)
    {
      ghost var t0 := term;
      var i := 0;
      while i < n
        invariant 0 <= i <= n && term.cur == t0.cur + i
        invariant forall j: nat :: Cell(term, j) == if t0.cur <= j < t0.cur + i then ' ' else Cell(t0, j)
      {
        ghost var t1 := term;
        term := Emit(term, ' ');
        forall j: nat ensures Cell(term, j) == if t0.cur <= j < t0.cur + i + 1 then ' ' else Cell(t0, j) {
          assert Cell(t1, j) == if t0.cur <= j < t0.cur + i then ' ' else Cell(t0, j);
        }
        i := i + 1;
      }
    }

    /** Redraw the line with backspaces, text and blanks only. */
    method RepaintAt(oldPos: nat, oldLen: nat, newLen: nat, newPos: nat, ghost was: string)
      requires oldPos <= oldLen == |was| && newPos <= newLen <= buf.Length && AllPrintable(buf[..newLen])
      requires Shows(term, was, oldPos)
      modifies this`term
      ensures Shows(term, buf[..newLen], newPos)
    {
      ghost var text := buf[..newLen];
      assert buf[0..newLen] == text;
      ghost var t0 := term;
      Back(oldPos);
      ghost var t1 := term;
      Write(0, newLen);
      ghost var t2 := term;
      if oldLen > newLen {
        var tail := oldLen - newLen;
        Blanks(tail);
        Back(tail);
      }
      forall j: nat ensures Cell(term, j) == Want(text, j) {
        assert Cell(t0, j) == Want(was, j) && Cell(t1, j) == Cell(t0, j) && Cell(t2, j) == Over(t1, text, j);
      }
      ghost var t3 := term;
      Back(newLen - newPos);
      assert forall j: nat :: Cell(term, j) == Cell(t3, j);
    }

    /** Move the cursor left. */
    method Left(n: nat)
      requires Valid() && n <= pos
      modifies this`term, this`pos
      ensures Valid() && View() == old(View()).(pos := old(pos) - n)
    {
      ghost var t0 := term;
      Back(n);
      assert forall j: nat :: Cell(term, j) == Cell(t0, j);
      pos := pos - n;
    }

    /** Move the cursor right by writing what is there again. */
    method Right(n: nat)
      requires Valid() && pos + n <= len
      modifies this`term, this`pos
      ensures Valid() && View() == old(View()).(pos := old(pos) + n)
    {
      hide Want;
      ghost var t0 := term;
      Slice(buf, pos, pos + n, len);
      Write(pos, pos + n);
      forall j: nat ensures Cell(term, j) == Want(buf[..len], j) {
        Rewritten(t0, buf[..len], pos, n, j);
      }
      pos := pos + n;
    }

    /** Take out the character at k and close the gap. */
    method Remove(k: nat)
      requires k < len <= buf.Length
      modifies buf, this`len
      ensures len == old(len) - 1 && buf[..len] == old(buf[..len])[..k] + old(buf[..len])[k + 1..]
    {
      ghost var was := buf[..len];
      var i := k;
      while i < len - 1
        invariant k <= i <= len - 1 && len == old(len)
        invariant forall j :: 0 <= j < k || i <= j < len ==> buf[j] == was[j]
        invariant forall j :: k <= j < i ==> buf[j] == was[j + 1]
      {
        buf[i] := buf[i + 1];
        i := i + 1;
      }
      len := len - 1;
    }

    /** Make room at the cursor for one character. */
    method Insert(c: char)
      requires pos <= len < buf.Length
      modifies buf, this`len
      ensures len == old(len) + 1 && buf[..len] == old(buf[..len])[..pos] + [c] + old(buf[..len])[pos..]
    {
      var i := len;
      while i > pos
        invariant pos <= i <= len == old(len)
        invariant forall j :: 0 <= j < i ==> buf[j] == old(buf[..len])[j]
        invariant forall j :: i < j <= len ==> buf[j] == old(buf[..len])[j - 1]
      {
        buf[i] := buf[i - 1];
        i := i - 1;
      }
      buf[pos] := c;
      len := len + 1;
    }

    /** Copy a line into the buffer. */
    method Fill(s: string)
      requires |s| <= buf.Length
      modifies buf, this`len
      ensures len == |s| && buf[..len] == s
    {
      var i := 0;
      while i < |s|
        invariant 0 <= i <= |s| && buf[..i] == s[..i]
      {
        buf[i] := s[i];
        i := i + 1;
      }
      len := |s|;
    }

    /** Step through the history. */
    method WalkHistory(to: int)
      requires Valid()
      modifies this, buf
      ensures Valid() && View() == Walk(old(View()), to, past.Entries(), buf.Length)
    {
      if to < -1 || to >= past.count {
        return;
      }
      ghost var was, e := buf[..len], View();
      if histPos == -1 {
        saved := buf[..len];
      }
      histPos := to;
      var oldLen, oldPos := len, pos;
      if to == -1 {
        Fill(saved);
      } else {
        var _, h := past.Get(to);
        Fill(Cut(h, buf.Length - 1));
      }
      pos := len;
      RepaintAt(oldPos, oldLen, len, pos, was);
    }

    /** Rub out the character before the cursor. */
    method EraseBefore()
      requires Valid() && pos > 0
      modifies this, buf
      ensures Valid() &&
        View() ==
        old(View()).(text := old(View()).text[..old(pos) - 1] + old(View()).text[old(pos)..], pos := old(pos) - 1)
    {
      hide Want;
      ghost var was := buf[..len];
      var oldLen := len;
      Remove(pos - 1);
      RepaintAt(pos, oldLen, len, pos - 1, was);
      pos := pos - 1;
    }

    /** Rub out the character under the cursor. */
    method EraseAt()
      requires Valid() && pos < len
      modifies this, buf
      ensures Valid() && View() == old(View()).(text := old(View()).text[..old(pos)] + old(View()).text[old(pos) + 1..])
    {
      hide Want;
      ghost var was := buf[..len];
      var oldLen := len;
      Remove(pos);
      RepaintAt(pos, oldLen, len, pos, was);
    }

    /** Drop the text from k on, with the cursor there. */
    method Kill(k: nat)
      requires Valid() && k <= pos
      modifies this`len, this`pos, this`term
      ensures Valid() && View() == old(View()).(text := old(View()).text[..k], pos := k)
    {
      hide Want;
      ghost var was := buf[..len];
      var oldLen := len;
      len := k;
      assert buf[..k] == was[..k];
      RepaintAt(pos, oldLen, len, k, was);
      pos := k;
    }

    /** Any key but Tab and Enter. */
    method Key(uc: int)
      requires Valid() && 0 <= uc < 256 && uc != 9 && uc != 10 && uc != 13
      modifies this, buf
      ensures Valid() && View() == Next(old(View()), uc, past.Entries(), buf.Length)
    {
      hide Shows, AllPrintable, PrevWord, NextWord, Walk;
      if uc == 0x08 || uc == 0x7F {
        if pos > 0 {
          EraseBefore();
        }
      } else if uc == 0x95 {
        if pos < len {
          EraseAt();
        }
      } else if uc == 0x85 || uc == 0x01 {
        Left(pos);
      } else if uc == 0x86 || uc == 0x05 {
        Right(len - pos);
      } else if uc == 0x15 {
        Kill(0);
      } else if uc == 0x0B {
        Kill(pos);
      } else {
        KeyRest(uc);
      }
    }

    method KeyRest(uc: int)
      requires Valid() && 0 <= uc < 256 && uc !in {0x08, 0x7F, 0x95, 0x85, 0x01, 0x86, 0x05, 0x15, 0x0B, 9, 10, 13}
      modifies this, buf
      ensures Valid() && View() == Next(old(View()), uc, past.Entries(), buf.Length)
    {
      hide Shows, AllPrintable, PrevWord, NextWord, Walk;
      if uc == 0x83 {
        if pos > 0 {
          Left(1);
        }
      } else if uc == 0x84 {
        if pos < len {
          Right(1);
        }
      } else if uc == 0x93 {
        var target := WordLeft(buf[..len], pos);
        Left(pos - target);
      } else if uc == 0x94 {
        var target := WordRight(buf[..len], pos);
        Right(target - pos);
      } else if uc == 0x81 || uc == 0x82 {
        WalkHistory(histPos + if uc == 0x81 then 1 else -1);
      } else if 0x20 <= uc < 0x80 && len < buf.Length - 1 {
        Type(uc as char);
      }
    }

    /** Insert a character: a plain echo at the end, a repaint elsewhere. */
    method Type(c: char)
      requires Valid() && Printable(c) && len < buf.Length - 1
      modifies this, buf
      ensures Valid() &&
        View() ==
        old(View()).(text := old(View()).text[..old(pos)] + [c] + old(View()).text[old(pos)..], pos := old(pos) + 1)
    {
      ghost var was := buf[..len];
      Insert(c);
      if pos == len - 1 {
        ghost var t0 := term;
        term := Emit(term, c);
        forall j: nat ensures Cell(term, j) == Want(buf[..len], j) {
          assert Cell(t0, j) == Want(was, j);
        }
      } else {
        RepaintAt(pos, len - 1, len, pos + 1, was);
      }
      pos := pos + 1;
    }
  }

  lemma Slice(buf: array<char>, a: nat, b: nat, n: nat)
    requires a <= b <= n <= buf.Length
    ensures buf[a..b] == buf[..n][a..b]
    ensures AllPrintable(buf[..n]) ==> AllPrintable(buf[a..b])
  {
    forall i | 0 <= i < b - a ensures buf[a..b][i] == buf[..n][a..b][i] && buf[a..b][i] == buf[..n][a + i] {
    }
  }

  /** Writing what is shown already changes nothing. */
  lemma Rewritten(t: Term, text: string, pos: nat, n: nat, j: nat)
    requires Shows(t, text, pos) && pos + n <= |text|
    ensures Over(t, text[pos..pos + n], j) == Want(text, j)
  {
  }

  /** A cell after a string was written over the row. */
  ghost function Over(t: Term, s: string, j: nat): char {
    if t.cur <= j < t.cur + |s| then s[j - t.cur] else Cell(t, j)
  }

  // ----- runs -----

  predicate EditKey(uc: int) { 0 <= uc < 256 && uc != 9 && uc != 10 && uc != 13 }

  /** After any keys the line is what they mean, one after the other, and the
      terminal shows exactly that line. */
  method Session(e: Editor, keys: seq<int>)
    requires e.Valid() && forall k :: 0 <= k < |keys| ==> EditKey(keys[k])
    modifies e, e.buf
    ensures e.Valid() && Shows(e.term, e.buf[..e.len], e.pos) && e.pos <= e.len < e.buf.Length
    ensures old(HistOk(e.past.Entries()))
    ensures e.View() == Typed(old(e.View()), keys, old(e.past.Entries()), e.buf.Length)
  {
    hide Shows, AllPrintable, Next;
    ghost var v, h := e.View(), e.past.Entries();
    assert keys[..0] == [];
    var k := 0;
    while k < |keys|
      invariant 0 <= k <= |keys| && e.Valid() && e.past.Entries() == h
      invariant e.View() == Typed(v, keys[..k], h, e.buf.Length)
    {
      TypedOn(v, keys, k, h, e.buf.Length);
      e.Key(keys[k]);
      k := k + 1;
    }
    assert keys[..k] == keys;
  }
}
