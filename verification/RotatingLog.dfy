/** The size-rotating NDJSON writer: a base file, history files .1 (newest) to .keep (oldest) and the
    temporary file of a rotation. A file is the sequence of the lines in it. */
module RotatingLog {
  import opened Options

  /** One encoded line with its newline; id is its position in the order of writing. */
  datatype Line = Line(id: nat, size: nat)

  type History = map<nat, seq<Line>>

  function Bytes(lines: seq<Line>): nat {
    if lines == [] then 0 else Bytes(lines[..|lines| - 1]) + lines[|lines| - 1].size
  }

  /** What there is between calls: the history, the file the writer appends to, the size it believes that
      file has, and whether the file is still linked under the base name. */
  datatype State = State(hist: History, base: seq<Line>, currentSz: int, linked: bool)

  /** How a rotation goes wrong, the shifts of history files apart. */
  datatype Fault = NoFault | OpenFails | AsideFails | PromoteFails

  // ---- Shifting the history ----

  /** rename .i to .i+1, replacing what is there; a missing .i or a failed rename leaves things alone. */
  function MoveUp(h: History, i: nat, fails: set<nat>): History {
    if i in h && i !in fails then (h - {i})[i + 1 := h[i]] else h
  }

  /** The shift loop from i down to 1. */
  function Shift(h: History, i: nat, fails: set<nat>): History
    decreases i
  {
    if i == 0 then h else Shift(MoveUp(h, i, fails), i - 1, fails)
  }

  function Shifted(h: History, keep: nat, fails: set<nat>): History
    requires keep > 0
  {
    Shift(h - {keep}, keep - 1, fails)
  }

  function AfterRotate(s: State, keep: nat, fault: Fault, fails: set<nat>): State {
    if fault.OpenFails? then s
    else if keep == 0 then (if fault.PromoteFails? then s.(linked := false) else State(s.hist, [], 0, true))
    else if fault.AsideFails? then s.(hist := Shifted(s.hist, keep, fails))
    else if fault.PromoteFails? then s.(hist := Shifted(s.hist, keep, fails) - {1})
    else State(Shifted(s.hist, keep, fails)[1 := s.base], [], 0, true)
  }

  predicate Rotates(keep: nat, fault: Fault) {
    fault.NoFault? || (fault.AsideFails? && keep == 0)
  }

  predicate NeedsRotation(s: State, maxBytes: int, line: Line) {
    s.currentSz > 0 && s.currentSz + line.size > maxBytes
  }

  /** One WriteJSON: the state after it, and whether the line was written. */
  function AfterWrite(s: State, maxBytes: int, keep: nat, line: Line, fault: Fault, fails: set<nat>, writeFails: bool)
    : (State, bool)
  {
    var rotate := NeedsRotation(s, maxBytes, line);
    var t := if rotate then AfterRotate(s, keep, fault, fails) else s;
    if (rotate && !Rotates(keep, fault)) || writeFails then (t, false)
    else (t.(base := t.base + [line], currentSz := t.currentSz + line.size), true)
  }

  /** What the open handle refers to; a detached file has lost its name. */
  datatype Handle = OnBase | OnFirst | Detached(lines: seq<Line>)

  class Writer {
    const maxBytes: int
    const keep: nat
    var hist: History
    var base: Option<seq<Line>>
    var rotating: Option<seq<Line>>
    var handle: Handle
    var currentSz: int

    /** Between calls the handle is open on the base file. Only a writer without history can have lost
        it. */
    ghost predicate Valid()
      reads this
    {
      maxBytes > 0 && if base.Some? then handle == OnBase else handle.Detached? && keep == 0
    }

    /** The lines of the file behind the handle. */
    function Open(): seq<Line>
      reads this
      requires Valid()
    {
      if base.Some? then base.value else handle.lines
    }

    function Disk(): State
      reads this
      requires Valid()
    {
      State(hist, Open(), currentSz, base.Some?)
    }

    /** Opens the base file, creating it if need be, and sizes it up. */
    constructor (maxBytes: int, keep: int, hist: History, base: Option<seq<Line>>, rotating: Option<seq<Line>>)
      ensures Valid() && this.maxBytes == (if maxBytes <= 0 then 100 * 1024 * 1024 else maxBytes)
      ensures this.keep == if keep < 0 then 0 else keep
      ensures var lines := if base.Some? then base.value else []; Disk() == State(hist, lines, Bytes(lines), true)
    {
      var lines := if base.Some? then base.value else [];
      this.maxBytes := if maxBytes <= 0 then 100 * 1024 * 1024 else maxBytes;
      this.keep := if keep < 0 then 0 else keep;
      this.hist, this.base, this.rotating := hist, Some(lines), rotating;
      this.handle, this.currentSz := OnBase, Bytes(lines);
    }

    /** Drops .keep and renames the rest up by one, oldest first. */
    method ShiftHistory(fails: set<nat>)
      requires keep > 0
      modifies this`hist
      ensures hist == Shifted(old(hist), keep, fails)
    {
      hist := hist - {keep};
      var i := keep - 1;
      while i >= 1
        invariant 0 <= i < keep
        invariant Shift(hist, i, fails) == Shifted(old(hist), keep, fails)
      {
        hist := MoveUp(hist, i, fails);
        i := i - 1;
      }
    }

    method Rotate(fault: Fault, fails: set<nat>) returns (ok: bool)
      requires Valid()
      modifies this
      ensures Valid() && ok == Rotates(keep, fault)
      ensures Disk() == AfterRotate(old(Disk()), keep, fault, fails)
    {
      rotating := None;
      if fault.OpenFails? { return false; }
      rotating := Some([]);
      if keep > 0 {
        ShiftHistory(fails);
        if fault.AsideFails? {
          rotating := None;
          return false;
        }
        hist := hist[1 := base.value];
        base, handle := None, OnFirst;
      } else {
        base, handle := None, Detached(Open());
      }
      if fault.PromoteFails? {
        rotating := None;
        if keep > 0 {
          base, handle := Some(hist[1]), OnBase;
          hist := hist - {1};
          assert hist == Shifted(old(hist), keep, fails) - {1};
        }
        return false;
      }
      base, rotating := rotating, None;
      handle, currentSz := OnBase, 0;
      ok := true;
    }

    method WriteJSON(line: Line, fault: Fault, fails: set<nat>, writeFails: bool) returns (ok: bool)
      requires Valid()
      modifies this
      ensures Valid()
      ensures (Disk(), ok) == AfterWrite(old(Disk()), maxBytes, keep, line, fault, fails, writeFails)
    {
      if currentSz > 0 && currentSz + line.size > maxBytes {
        var rotated := Rotate(fault, fails);
        if !rotated { return false; }
      }
      if writeFails { return false; }
      if base.Some? {
        base := Some(base.value + [line]);
      } else {
        handle := Detached(handle.lines + [line]);
      }
      currentSz := currentSz + line.size;
      ok := true;
    }
  }

  // ---- What the files hold ----

  function Slot(h: History, n: nat): seq<Line> {
    if n in h then h[n] else []
  }

  /** The files .n to .1 read in order, oldest first. */
  function Concat(h: History, n: nat): seq<Line> {
    if n == 0 then [] else Slot(h, n) + Concat(h, n - 1)
  }

  /** All files read in order. */
  function Retained(s: State, keep: nat): seq<Line> {
    Concat(s.hist, keep) + if s.linked then s.base else []
  }

  /** lines is a contiguous suffix of log. */
  predicate Suffix(log: seq<Line>, lines: seq<Line>) {
    |lines| <= |log| && log[|log| - |lines|..] == lines
  }

  /** Lines are numbered in the order of writing. */
  predicate Numbered(log: seq<Line>) {
    forall i :: 0 <= i < |log| ==> log[i].id == i
  }

  predicate Fits(lines: seq<Line>, maxBytes: int) {
    Bytes(lines) <= maxBytes || |lines| == 1
  }

  /** Every line has at least its newline. */
  predicate NoneEmpty(lines: seq<Line>) {
    forall l :: l in lines ==> l.size > 0
  }

  predicate SizesOK(s: State, maxBytes: int) {
    && s.currentSz == Bytes(s.base) && Fits(s.base, maxBytes)
    && forall n :: n in s.hist ==> Fits(s.hist[n], maxBytes)
  }

  function File(h: History, n: nat): Option<seq<Line>> {
    if n in h then Some(h[n]) else None
  }

  /** Where file n comes from after the shift loop started at i: from .n-1 if that moved up, else it is
      the one that was there and stayed. */
  function FileAfter(h: History, i: nat, fails: set<nat>, n: nat): Option<seq<Line>> {
    if n == 0 || n > i + 1 then File(h, n)
    else if n >= 2 && n - 1 in h && n - 1 !in fails then Some(h[n - 1])
    else if n in fails || n == i + 1 then File(h, n)
    else None
  }

  lemma {:induction false} ShiftSlots(h: History, i: nat, fails: set<nat>, n: nat)
    ensures File(Shift(h, i, fails), n) == FileAfter(h, i, fails, n)
    decreases i
  {
    if i > 0 {
      ShiftSlots(MoveUp(h, i, fails), i - 1, fails, n);
    }
  }

  /** History file m, below .keep, lives through the shifts: it moves up, or its rename fails and nothing
      is renamed over it. over says whether the base is renamed over .1. */
  predicate Survives(h: History, fails: set<nat>, m: nat, over: bool) {
    m in h && (m !in fails || if m == 1 then !over else m >= 2 && (m - 1 !in h || m - 1 in fails))
  }

  /** What is left of .n to .1. */
  function Kept(h: History, fails: set<nat>, n: nat, over: bool): seq<Line> {
    if n == 0 then [] else (if Survives(h, fails, n, over) then h[n] else []) + Kept(h, fails, n - 1, over)
  }

  lemma SuffixTransitive(a: seq<Line>, b: seq<Line>, c: seq<Line>)
    requires Suffix(a, b) && Suffix(b, c)
    ensures Suffix(a, c)
  {
    assert a[|a| - |b|..][|b| - |c|..] == a[|a| - |c|..];
  }

  lemma SuffixExtends(a: seq<Line>, b: seq<Line>, c: seq<Line>)
    requires Suffix(a, b)
    ensures Suffix(a + c, b + c)
  {
    assert (a + c)[|a| - |b|..] == a[|a| - |b|..] + c;
  }

  lemma SuffixOfSum(a: seq<Line>, b: seq<Line>)
    ensures Suffix(a + b, b)
  {
    assert (a + b)[|a|..] == b;
  }

  /** Only the slots up to n matter. */
  lemma {:induction false} ConcatSame(g: History, h: History, n: nat)
    requires forall m :: 1 <= m <= n ==> Slot(g, m) == Slot(h, m)
    ensures Concat(g, n) == Concat(h, n)
  {
    if n > 0 { ConcatSame(g, h, n - 1); }
  }

  /** The stay-behind of slot n: its rename failed and nothing came over it. */
  function Left(h: History, fails: set<nat>, n: nat, over: bool): seq<Line> {
    if n in fails && Survives(h, fails, n, over) then h[n] else []
  }

  /** The history after the shifts, with the base on .1 if it got there. */
  function Topped(h: History, keep: nat, fails: set<nat>, base: seq<Line>, over: bool): History
    requires keep > 0
  {
    if over then Shift(h, keep - 1, fails)[1 := base] else Shift(h, keep - 1, fails)
  }

  lemma RotatedSlot(h: History, keep: nat, fails: set<nat>, base: seq<Line>, over: bool, n: nat)
    requires 1 <= n <= keep && keep !in h
    ensures Slot(Topped(h, keep, fails, base, over), n) ==
            if n == 1 && over then base
            else if n >= 2 && n - 1 in h && n - 1 !in fails then h[n - 1]
            else Left(h, fails, n, over)
  {
    ShiftSlots(h, keep - 1, fails, n);
  }

  lemma SlotAndLeft(h: History, fails: set<nat>, n: nat, over: bool, slot: seq<Line>)
    requires n >= 2 && slot == if n - 1 in h && n - 1 !in fails then h[n - 1] else Left(h, fails, n, over)
    ensures slot + Left(h, fails, n - 1, over) ==
            Left(h, fails, n, over) + if Survives(h, fails, n - 1, over) then h[n - 1] else []
  {
    if n - 1 in h && n - 1 !in fails {
      assert Left(h, fails, n, over) == [] && Left(h, fails, n - 1, over) == [];
    } else {
      assert Left(h, fails, n - 1, over) == if Survives(h, fails, n - 1, over) then h[n - 1] else [];
    }
  }

  lemma Regroup(a: seq<Line>, b: seq<Line>, c: seq<Line>, d: seq<Line>, e: seq<Line>, f: seq<Line>)
    requires a + b == e + f
    ensures a + (b + c + d) == e + (f + c) + d
  {
    assert a + (b + c + d) == (a + b) + c + d;
    assert e + (f + c) + d == (e + f) + c + d;
  }

  /** After the shifts the history reads: what is kept of the old history, then the base if it was moved
      to .1. */
  lemma {:induction false} RotatedConcat(h: History, keep: nat, fails: set<nat>, base: seq<Line>, over: bool, n: nat)
    requires 1 <= n <= keep && keep !in h
    ensures Concat(Topped(h, keep, fails, base, over), n) ==
            Left(h, fails, n, over) + Kept(h, fails, n - 1, over) + if over then base else []
  {
    var g, last := Topped(h, keep, fails, base, over), if over then base else [];
    RotatedSlot(h, keep, fails, base, over, n);
    if n == 1 {
      assert Concat(g, 0) == [];
    } else {
      RotatedConcat(h, keep, fails, base, over, n - 1);
      var survivor := if Survives(h, fails, n - 1, over) then h[n - 1] else [];
      SlotAndLeft(h, fails, n, over, Slot(g, n));
      assert Concat(g, n) == Slot(g, n) + (Left(h, fails, n - 1, over) + Kept(h, fails, n - 2, over) + last);
      assert Kept(h, fails, n - 1, over) == survivor + Kept(h, fails, n - 2, over);
      Regroup(Slot(g, n), Left(h, fails, n - 1, over), Kept(h, fails, n - 2, over), last, Left(h, fails, n, over),
              survivor);
    }
  }

  /** Survival is closed towards the newer files. */
  predicate NewerSurvive(h: History, fails: set<nat>, n: nat, over: bool) {
    forall i, j :: 1 <= i < j <= n && i in h && Survives(h, fails, j, over) ==> Survives(h, fails, i, over)
  }

  lemma {:induction false} KeptAll(h: History, fails: set<nat>, n: nat, over: bool)
    requires forall i :: 1 <= i <= n && i in h ==> Survives(h, fails, i, over)
    ensures Kept(h, fails, n, over) == Concat(h, n)
  {
    if n > 0 { KeptAll(h, fails, n - 1, over); }
  }

  lemma SuffixReflexive(a: seq<Line>)
    ensures Suffix(a, a)
  {
  }

  /** Once file n survives, so does every newer file. */
  lemma AllSurvive(h: History, fails: set<nat>, n: nat, over: bool)
    requires NewerSurvive(h, fails, n, over) && Survives(h, fails, n, over)
    ensures Kept(h, fails, n, over) == Concat(h, n)
  {
    forall i | 1 <= i <= n && i in h ensures Survives(h, fails, i, over) {
      if i < n { assert Survives(h, fails, n, over); }
    }
    KeptAll(h, fails, n, over);
  }

  lemma LostOldest(h: History, fails: set<nat>, n: nat, over: bool)
    requires n > 0 && !Survives(h, fails, n, over)
    ensures Kept(h, fails, n, over) == Kept(h, fails, n - 1, over)
  {
  }

  lemma OlderFile(h: History, n: nat, tail: seq<Line>)
    requires n > 0 && Suffix(Concat(h, n - 1), tail)
    ensures Suffix(Concat(h, n), tail)
  {
    SuffixOfSum(Slot(h, n), Concat(h, n - 1));
    SuffixTransitive(Concat(h, n), Concat(h, n - 1), tail);
  }

  lemma {:induction false} KeptIsSuffix(h: History, fails: set<nat>, n: nat, over: bool)
    requires NewerSurvive(h, fails, n, over)
    ensures Suffix(Concat(h, n), Kept(h, fails, n, over))
  {
    if n == 0 {
      SuffixReflexive([]);
    } else if Survives(h, fails, n, over) {
      AllSurvive(h, fails, n, over);
      SuffixReflexive(Concat(h, n));
    } else {
      KeptIsSuffix(h, fails, n - 1, over);
      LostOldest(h, fails, n, over);
      OlderFile(h, n, Kept(h, fails, n - 1, over));
    }
  }

  lemma SuffixIndex(log: seq<Line>, tail: seq<Line>) returns (k: nat)
    requires Suffix(log, tail)
    ensures k + |tail| == |log| && forall p :: 0 <= p < |tail| ==> tail[p] == log[k + p]
  {
    k := |log| - |tail|;
  }

  /** In a suffix of a numbered log an earlier line has a smaller number. */
  lemma EarlierIsSmaller(log: seq<Line>, a: seq<Line>, b: seq<Line>, x: Line, y: Line)
    requires Numbered(log) && Suffix(log, a + b) && x in a && y in b
    ensures x.id < y.id < |log| && log[y.id] == y
  {
    var k := SuffixIndex(log, a + b);
    var p :| 0 <= p < |a| && a[p] == x;
    var q :| 0 <= q < |b| && b[q] == y;
    assert (a + b)[p] == x && (a + b)[|a| + q] == y;
  }

  /** A suffix that has a line has every later one. */
  lemma SuffixHasLater(log: seq<Line>, tail: seq<Line>, x: Line, y: Line)
    requires Numbered(log) && Suffix(log, tail) && x in tail && x.id < y.id < |log| && log[y.id] == y
    ensures y in tail
  {
    var k := SuffixIndex(log, tail);
    var p :| 0 <= p < |tail| && tail[p] == x;
    assert log[k + p].id == k + p;
    assert tail[y.id - k] == log[k + (y.id - k)];
  }

  /** A line of an older file has a smaller number than any line after that file. */
  lemma {:induction false} OlderIsSmaller(log: seq<Line>, h: History, n: nat, rest: seq<Line>, j: nat, x: Line, y: Line)
    requires Numbered(log) && Suffix(log, Concat(h, n) + rest)
    requires 1 <= j <= n && x in Slot(h, j) && y in Concat(h, j - 1) + rest
    ensures x.id < y.id < |log| && log[y.id] == y
  {
    var tail := Concat(h, n - 1) + rest;
    assert Concat(h, n) + rest == Slot(h, n) + tail;
    if j == n {
      EarlierIsSmaller(log, Slot(h, n), tail, x, y);
    } else {
      SuffixOfSum(Slot(h, n), tail);
      SuffixTransitive(log, Concat(h, n) + rest, tail);
      OlderIsSmaller(log, h, n - 1, rest, j, x, y);
    }
  }

  lemma {:induction false} SlotInConcat(h: History, i: nat, n: nat, x: Line)
    requires 1 <= i <= n && x in Slot(h, i)
    ensures x in Concat(h, n)
  {
    if i < n { SlotInConcat(h, i, n - 1, x); }
  }

  lemma {:induction false} InKept(h: History, fails: set<nat>, n: nat, over: bool, x: Line) returns (m: nat)
    requires x in Kept(h, fails, n, over)
    ensures 1 <= m <= n && Survives(h, fails, m, over) && x in h[m]
  {
    if Survives(h, fails, n, over) && x in h[n] { m := n; } else { m := InKept(h, fails, n - 1, over, x); }
  }

  lemma {:induction false} KeptHas(h: History, fails: set<nat>, n: nat, over: bool, m: nat, x: Line)
    requires 1 <= m <= n && Survives(h, fails, m, over) && x in h[m]
    ensures x in Kept(h, fails, n, over)
  {
    if m < n { KeptHas(h, fails, n - 1, over, m, x); }
  }

  /** No line is in two history files. */
  lemma SlotsAreDisjoint(log: seq<Line>, h: History, n: nat, base: seq<Line>, i: nat, j: nat, y: Line)
    requires Numbered(log) && Suffix(log, Concat(h, n) + base)
    requires 1 <= i < j <= n && y in Slot(h, i)
    ensures y !in Slot(h, j)
  {
    SlotInConcat(h, i, j - 1, y);
    if y in Slot(h, j) { OlderIsSmaller(log, h, n, base, j, y, y); }
  }

  /** A line of a lost file is nowhere in what is kept. */
  lemma LostLineIsGone(log: seq<Line>, h: History, n: nat, fails: set<nat>, over: bool, base: seq<Line>, i: nat,
                       y: Line)
    requires Numbered(log) && Suffix(log, Concat(h, n) + base)
    requires 1 <= i <= n && i in h && y in h[i] && !Survives(h, fails, i, over)
    ensures y !in Kept(h, fails, n, over) && y !in base
  {
    if y in base {
      OlderIsSmaller(log, h, n, base, i, y, y);
    }
    if y in Kept(h, fails, n, over) {
      var m := InKept(h, fails, n, over, y);
      if m < i {
        SlotsAreDisjoint(log, h, n, base, m, i, y);
      } else if i < m {
        SlotsAreDisjoint(log, h, n, base, i, m, y);
      }
    }
  }

  /** A file lost under a surviving older one leaves a gap. */
  lemma GapIsNotSuffix(log: seq<Line>, h: History, n: nat, fails: set<nat>, over: bool, base: seq<Line>, i: nat, j: nat)
    requires Numbered(log) && Suffix(log, Concat(h, n) + base) && (forall m :: m in h ==> h[m] != [])
    requires 1 <= i < j <= n && i in h && Survives(h, fails, j, over) && !Survives(h, fails, i, over)
    ensures !Suffix(log, Kept(h, fails, n, over) + base)
  {
    var x, y := h[j][0], h[i][0];
    SlotInConcat(h, i, j - 1, y);
    OlderIsSmaller(log, h, n, base, j, x, y);
    KeptHas(h, fails, n, over, j, x);
    LostLineIsGone(log, h, n, fails, over, base, i, y);
    if Suffix(log, Kept(h, fails, n, over) + base) {
      SuffixHasLater(log, Kept(h, fails, n, over) + base, x, y);
    }
  }

  lemma Associative(a: seq<Line>, b: seq<Line>, c: seq<Line>)
    ensures a + b + c == a + (b + c)
  {
  }

  /** Dropping .keep drops only its lines. */
  lemma WithoutOldest(s: State, keep: nat)
    requires keep > 0 && s.linked
    ensures Retained(s, keep) == Slot(s.hist, keep) + (Concat(s.hist - {keep}, keep - 1) + s.base)
    ensures Suffix(Retained(s, keep), Concat(s.hist - {keep}, keep - 1) + s.base)
  {
    var h := s.hist - {keep};
    ConcatSame(h, s.hist, keep - 1);
    Associative(Slot(s.hist, keep), Concat(h, keep - 1), s.base);
    SuffixOfSum(Slot(s.hist, keep), Concat(h, keep - 1) + s.base);
  }

  /** Whether a rotation gets as far as renaming the base over .1. */
  predicate Overlays(fault: Fault) { !fault.AsideFails? }

  /** What a rotation leaves, completed or failed, unless it fails at the open: of the history below .keep
      the files that survive the shifts, and the lines of the base. */
  lemma RotationRetains(s: State, keep: nat, fault: Fault, fails: set<nat>)
    requires keep > 0 && s.linked && !fault.OpenFails?
    ensures var t := AfterRotate(s, keep, fault, fails);
            t.linked && Retained(t, keep) == Kept(s.hist - {keep}, fails, keep - 1, Overlays(fault)) + s.base
  {
    var h, over := s.hist - {keep}, Overlays(fault);
    var moved := if fault.PromoteFails? then [] else s.base;
    RotatedConcat(h, keep, fails, moved, over, keep);
    assert Left(h, fails, keep, over) == [];
    if fault.PromoteFails? {
      ConcatSame(Shift(h, keep - 1, fails) - {1}, Topped(h, keep, fails, [], over), keep);
    }
  }

  /** A rotation whose shifts, some of them failing, leave a contiguous piece of the log. */
  predicate ShiftSafe(s: State, keep: nat, fault: Fault, fails: set<nat>) {
    keep == 0 || fault.OpenFails? || NewerSurvive(s.hist - {keep}, fails, keep - 1, Overlays(fault))
  }

  predicate NoFileEmpty(h: History) {
    forall m :: m in h ==> h[m] != []
  }

  /** Rotation, completed or failed, and failed shift renames, exactly: the files go on holding a
      contiguous suffix of everything written if and only if no file whose rename failed was overwritten
      while an older one lived on. */
  lemma RotationContiguousExactly(log: seq<Line>, s: State, keep: nat, fault: Fault, fails: set<nat>)
    requires keep > 0 && s.linked && Numbered(log) && Suffix(log, Retained(s, keep)) && NoFileEmpty(s.hist)
    ensures Suffix(log, Retained(AfterRotate(s, keep, fault, fails), keep)) <==> ShiftSafe(s, keep, fault, fails)
  {
    if !fault.OpenFails? {
      var h, over := s.hist - {keep}, Overlays(fault);
      RotationRetains(s, keep, fault, fails);
      WithoutOldest(s, keep);
      SuffixTransitive(log, Retained(s, keep), Concat(h, keep - 1) + s.base);
      SurvivorsExactly(log, h, keep - 1, fails, over, s.base);
    }
  }

  lemma SurvivorsExactly(log: seq<Line>, h: History, n: nat, fails: set<nat>, over: bool, base: seq<Line>)
    requires Numbered(log) && Suffix(log, Concat(h, n) + base) && NoFileEmpty(h)
    ensures Suffix(log, Kept(h, fails, n, over) + base) <==> NewerSurvive(h, fails, n, over)
  {
    if NewerSurvive(h, fails, n, over) {
      SurvivorsAreSuffix(log, h, n, fails, over, base);
    } else {
      var i, j :| 1 <= i < j <= n && i in h && Survives(h, fails, j, over) && !Survives(h, fails, i, over);
      GapIsNotSuffix(log, h, n, fails, over, base, i, j);
    }
  }

  lemma SurvivorsAreSuffix(log: seq<Line>, h: History, n: nat, fails: set<nat>, over: bool, base: seq<Line>)
    requires Suffix(log, Concat(h, n) + base) && NewerSurvive(h, fails, n, over)
    ensures Suffix(log, Kept(h, fails, n, over) + base)
  {
    KeptIsSuffix(h, fails, n, over);
    SuffixExtends(Concat(h, n), Kept(h, fails, n, over), base);
    SuffixTransitive(log, Concat(h, n) + base, Kept(h, fails, n, over) + base);
  }

  /** A concrete case: .1 cannot be renamed, .2 moves on, and the base is renamed over .1. */
  lemma OneFailedShiftLeavesAGap()
    ensures var s := State(map[1 := [Line(1, 1)], 2 := [Line(0, 1)]], [Line(2, 1)], 1, true);
            && Retained(s, 4) == [Line(0, 1), Line(1, 1), Line(2, 1)]
            && !Suffix(Retained(s, 4), Retained(AfterRotate(s, 4, NoFault, {1}), 4))
  {
    var h: History := map[1 := [Line(1, 1)], 2 := [Line(0, 1)]];
    var s := State(h, [Line(2, 1)], 1, true);
    TwoFiles(h, [Line(1, 1)], [Line(0, 1)]);
    SuffixReflexive(Retained(s, 4));
    GapOfTwo(h);
    RotationContiguousExactly(Retained(s, 4), s, 4, NoFault, {1});
  }

  lemma TwoFiles(h: History, newer: seq<Line>, older: seq<Line>)
    requires h == map[1 := newer, 2 := older]
    ensures Concat(h, 4) == older + newer
  {
    assert Concat(h, 4) == Concat(h, 3) == Concat(h, 2) == older + Concat(h, 1);
    assert Concat(h, 1) == newer + Concat(h, 0);
  }

  lemma GapOfTwo(h: History)
    requires h.Keys == {1, 2}
    ensures !NewerSurvive(h - {4}, {1}, 3, true)
  {
    assert h - {4} == h && Survives(h, {1}, 2, true) && !Survives(h, {1}, 1, true);
  }

  /** In particular when every shift succeeds. */
  lemma NoFailuresSurvive(h: History, fails: set<nat>, n: nat, over: bool)
    requires forall m :: m in h ==> m !in fails
    ensures NewerSurvive(h, fails, n, over)
  {
  }

  // ---- Failed rotations ----

  /** All files up to n survive. */
  predicate AllLive(h: History, fails: set<nat>, n: nat, over: bool) {
    forall m :: 1 <= m <= n && m in h ==> Survives(h, fails, m, over)
  }

  lemma {:induction false} KeptLength(h: History, fails: set<nat>, n: nat, over: bool)
    requires NoFileEmpty(h)
    ensures |Kept(h, fails, n, over)| <= |Concat(h, n)|
    ensures |Kept(h, fails, n, over)| == |Concat(h, n)| <==> AllLive(h, fails, n, over)
  {
    if n > 0 {
      KeptLength(h, fails, n - 1, over);
      assert AllLive(h, fails, n, over) <==>
             AllLive(h, fails, n - 1, over) && (n in h ==> Survives(h, fails, n, over));
    }
  }

  /** A rotation that fails leaves the base and its size alone. If it fails at the open nothing changes at
      all; later, of the history exactly the oldest file is lost if and only if all others survive the
      shifts, as they do when no shift fails. */
  lemma FailedRotationKeeps(s: State, keep: nat, fault: Fault, fails: set<nat>)
    requires keep > 0 && s.linked && !Rotates(keep, fault) && NoFileEmpty(s.hist)
    ensures var t := AfterRotate(s, keep, fault, fails); t.base == s.base && t.currentSz == s.currentSz && t.linked
    ensures fault.OpenFails? ==> AfterRotate(s, keep, fault, fails) == s
    ensures !fault.OpenFails? ==>
              (Slot(s.hist, keep) + Retained(AfterRotate(s, keep, fault, fails), keep) == Retained(s, keep) <==>
               AllLive(s.hist - {keep}, fails, keep - 1, Overlays(fault)))
    ensures (forall m :: m in s.hist ==> m !in fails) ==> AllLive(s.hist - {keep}, fails, keep - 1, Overlays(fault))
  {
    if !fault.OpenFails? {
      var h, over := s.hist - {keep}, Overlays(fault);
      RotationRetains(s, keep, fault, fails);
      WithoutOldest(s, keep);
      KeptLength(h, fails, keep - 1, over);
      if AllLive(h, fails, keep - 1, over) { KeptAll(h, fails, keep - 1, over); }
    }
  }

  /** A writer without history that fails to promote its new file has removed the base already: nothing is
      left on disk, and what it goes on writing is seen by nobody until a later rotation succeeds. */
  lemma LostBaseIsUnseen(s: State, maxBytes: int, line: Line, fails: set<nat>)
    ensures Retained(AfterRotate(s, 0, PromoteFails, fails), 0) == []
    ensures !s.linked && !NeedsRotation(s, maxBytes, line) ==>
              AfterWrite(s, maxBytes, 0, line, NoFault, fails, false).1 &&
              Retained(AfterWrite(s, maxBytes, 0, line, NoFault, fails, false).0, 0) == []
    ensures AfterRotate(s, 0, NoFault, fails).linked
  {
  }

  // ---- Sizes ----

  lemma {:induction false} ShiftValues(h: History, i: nat, fails: set<nat>, n: nat)
    requires n in Shift(h, i, fails)
    ensures exists m :: m in h && Shift(h, i, fails)[n] == h[m]
    decreases i
  {
    if i > 0 {
      var h1 := MoveUp(h, i, fails);
      ShiftValues(h1, i - 1, fails, n);
      var m :| m in h1 && Shift(h, i, fails)[n] == h1[m];
      assert if i in h && i !in fails && m == i + 1 then h1[m] == h[i] else m in h && h1[m] == h[m];
    }
  }

  lemma ShiftedFits(h: History, keep: nat, fails: set<nat>, maxBytes: int)
    requires keep > 0 && forall n :: n in h ==> Fits(h[n], maxBytes)
    ensures forall n :: n in Shifted(h, keep, fails) ==> Fits(Shifted(h, keep, fails)[n], maxBytes)
  {
    forall n | n in Shifted(h, keep, fails) ensures Fits(Shifted(h, keep, fails)[n], maxBytes) {
      ShiftValues(h - {keep}, keep - 1, fails, n);
    }
  }

  lemma RotateKeepsSizes(s: State, maxBytes: int, keep: nat, fault: Fault, fails: set<nat>)
    requires SizesOK(s, maxBytes) && maxBytes > 0
    ensures SizesOK(AfterRotate(s, keep, fault, fails), maxBytes)
  {
    if keep > 0 { ShiftedFits(s.hist, keep, fails, maxBytes); }
  }

  /** Whatever fails: the writer's size is the base's size, and no file exceeds the limit unless it holds
      a single line. */
  lemma WriteKeepsSizes(s: State, maxBytes: int, keep: nat, line: Line, fault: Fault, fails: set<nat>, writeFails: bool)
    requires SizesOK(s, maxBytes) && maxBytes > 0 && NoneEmpty(s.base)
    ensures SizesOK(AfterWrite(s, maxBytes, keep, line, fault, fails, writeFails).0, maxBytes)
  {
    var t := if NeedsRotation(s, maxBytes, line) then AfterRotate(s, keep, fault, fails) else s;
    RotateKeepsSizes(s, maxBytes, keep, fault, fails);
    assert (t.base + [line])[..|t.base|] == t.base;
    EmptyIsZero(t.base);
  }

  lemma {:induction false} EmptyIsZero(lines: seq<Line>)
    requires NoneEmpty(lines)
    ensures Bytes(lines) == 0 <==> lines == []
  {
  }

  lemma RotateKeepsNoFileEmpty(s: State, keep: nat, fault: Fault, fails: set<nat>)
    requires NoFileEmpty(s.hist) && s.base != []
    ensures NoFileEmpty(AfterRotate(s, keep, fault, fails).hist)
  {
    if keep > 0 {
      forall n | n in Shifted(s.hist, keep, fails) ensures Shifted(s.hist, keep, fails)[n] != [] {
        ShiftValues(s.hist - {keep}, keep - 1, fails, n);
      }
    }
  }

  // ---- Any number of writes ----

  /** One call: the encoded size, and everything that fails in it. */
  datatype Attempt = Attempt(size: nat, fault: Fault, fails: set<nat>, writeFails: bool)

  /** What every run keeps, whatever fails. */
  predicate FilesOK(s: State, maxBytes: int, keep: nat) {
    && SizesOK(s, maxBytes) && NoneEmpty(s.base) && NoFileEmpty(s.hist) && (keep > 0 ==> s.linked)
  }

  lemma WriteKeepsNoneEmpty(s: State, maxBytes: int, keep: nat, line: Line, a: Attempt)
    requires line.size > 0 && NoneEmpty(s.base)
    ensures NoneEmpty(AfterWrite(s, maxBytes, keep, line, a.fault, a.fails, a.writeFails).0.base)
  {
    var t := if NeedsRotation(s, maxBytes, line) then AfterRotate(s, keep, a.fault, a.fails) else s;
    assert t.base == s.base || t.base == [];
  }

  lemma WriteKeepsHistory(s: State, maxBytes: int, keep: nat, line: Line, a: Attempt)
    requires s.currentSz == Bytes(s.base) && NoFileEmpty(s.hist) && (keep > 0 ==> s.linked)
    ensures var t := AfterWrite(s, maxBytes, keep, line, a.fault, a.fails, a.writeFails).0;
            NoFileEmpty(t.hist) && (keep > 0 ==> t.linked)
  {
    if NeedsRotation(s, maxBytes, line) {
      assert s.base != [];
      RotateKeepsNoFileEmpty(s, keep, a.fault, a.fails);
    }
  }

  lemma WriteKeepsFiles(s: State, maxBytes: int, keep: nat, line: Line, a: Attempt)
    requires maxBytes > 0 && line.size > 0 && FilesOK(s, maxBytes, keep)
    ensures FilesOK(AfterWrite(s, maxBytes, keep, line, a.fault, a.fails, a.writeFails).0, maxBytes, keep)
  {
    WriteKeepsSizes(s, maxBytes, keep, line, a.fault, a.fails, a.writeFails);
    WriteKeepsNoneEmpty(s, maxBytes, keep, line, a);
    WriteKeepsHistory(s, maxBytes, keep, line, a);
  }

  lemma SuffixSameEnd(a: seq<Line>, b: seq<Line>, line: Line)
    ensures Suffix(a + [line], b + [line]) <==> Suffix(a, b)
  {
    if Suffix(a, b) { SuffixExtends(a, b, [line]); }
    if Suffix(a + [line], b + [line]) {
      assert (a + [line])[|a| - |b|..] == a[|a| - |b|..] + [line];
      assert (b + [line])[..|b|] == b && (a[|a| - |b|..] + [line])[..|b|] == a[|a| - |b|..];
    }
  }

  lemma RotateContiguousExactly(log: seq<Line>, s: State, maxBytes: int, keep: nat, fault: Fault, fails: set<nat>)
    requires FilesOK(s, maxBytes, keep) && Numbered(log) && Suffix(log, Retained(s, keep))
    ensures Suffix(log, Retained(AfterRotate(s, keep, fault, fails), keep)) <==> ShiftSafe(s, keep, fault, fails)
  {
    if keep > 0 { RotationContiguousExactly(log, s, keep, fault, fails); }
  }

  /** One call keeps the files a contiguous suffix of everything written exactly when the rotation it
      makes, if any, is safe. */
  lemma WriteContiguousExactly(log: seq<Line>, s: State, maxBytes: int, keep: nat, line: Line, a: Attempt)
    requires FilesOK(s, maxBytes, keep) && Numbered(log) && Suffix(log, Retained(s, keep))
    ensures var (t, ok) := AfterWrite(s, maxBytes, keep, line, a.fault, a.fails, a.writeFails);
            Suffix(if ok then log + [line] else log, Retained(t, keep)) <==>
            (NeedsRotation(s, maxBytes, line) ==> ShiftSafe(s, keep, a.fault, a.fails))
  {
    var t := if NeedsRotation(s, maxBytes, line) then AfterRotate(s, keep, a.fault, a.fails) else s;
    RotateContiguousExactly(log, s, maxBytes, keep, a.fault, a.fails);
    SuffixSameEnd(log, Retained(t, keep), line);
    if t.linked {
      assert Concat(t.hist, keep) + (t.base + [line]) == Retained(t, keep) + [line];
    }
  }

  /** The files, and everything written so far. */
  datatype Logged = Logged(files: State, log: seq<Line>)

  /** The line a call encodes. */
  function LineOf(l: Logged, a: Attempt): Line { Line(|l.log|, a.size) }

  function AfterCall(l: Logged, maxBytes: int, keep: nat, a: Attempt): Logged {
    var (t, ok) := AfterWrite(l.files, maxBytes, keep, LineOf(l, a), a.fault, a.fails, a.writeFails);
    Logged(t, if ok then l.log + [LineOf(l, a)] else l.log)
  }

  /** A run of calls, each with its own failures. */
  ghost predicate Run(maxBytes: int, keep: nat, points: seq<Logged>, attempts: seq<Attempt>) {
    && |points| == |attempts| + 1 && maxBytes > 0
    && FilesOK(points[0].files, maxBytes, keep) && Numbered(points[0].log)
    && (forall i :: 0 <= i < |attempts| ==> attempts[i].size > 0)
    && (forall i :: 0 <= i < |attempts| ==> points[i + 1] == AfterCall(points[i], maxBytes, keep, attempts[i]))
  }

  predicate Contiguous(l: Logged, keep: nat) {
    Suffix(l.log, Retained(l.files, keep))
  }

  /** The rotation of a call, if it makes one, is safe. */
  predicate CallSafe(l: Logged, maxBytes: int, keep: nat, a: Attempt) {
    NeedsRotation(l.files, maxBytes, LineOf(l, a)) ==> ShiftSafe(l.files, keep, a.fault, a.fails)
  }

  lemma CallKeepsFiles(l: Logged, maxBytes: int, keep: nat, a: Attempt)
    requires maxBytes > 0 && a.size > 0 && FilesOK(l.files, maxBytes, keep) && Numbered(l.log)
    ensures var l' := AfterCall(l, maxBytes, keep, a); FilesOK(l'.files, maxBytes, keep) && Numbered(l'.log)
  {
    WriteKeepsFiles(l.files, maxBytes, keep, LineOf(l, a), a);
    NumberedGrows(l.log, a.size);
  }

  lemma NumberedGrows(log: seq<Line>, size: nat)
    requires Numbered(log)
    ensures Numbered(log + [Line(|log|, size)])
  {
  }

  lemma CallContiguousExactly(l: Logged, maxBytes: int, keep: nat, a: Attempt)
    requires FilesOK(l.files, maxBytes, keep) && Numbered(l.log) && Contiguous(l, keep)
    ensures Contiguous(AfterCall(l, maxBytes, keep, a), keep) <==> CallSafe(l, maxBytes, keep, a)
  {
    WriteContiguousExactly(l.log, l.files, maxBytes, keep, LineOf(l, a), a);
  }

  /** At every point of every run, anything failing: sizes are right, no file exceeds the limit unless it
      holds one line, no history file is empty. */
  lemma {:induction false} AnyWritesKeepFiles(maxBytes: int, keep: nat, points: seq<Logged>, attempts: seq<Attempt>,
                                              i: nat)
    requires Run(maxBytes, keep, points, attempts) && i <= |attempts|
    ensures FilesOK(points[i].files, maxBytes, keep) && Numbered(points[i].log)
  {
    if i > 0 {
      AnyWritesKeepFiles(maxBytes, keep, points, attempts, i - 1);
      CallKeepsFiles(points[i - 1], maxBytes, keep, attempts[i - 1]);
    }
  }

  /** Whole runs, every call with its own failures, failing shift renames among them: up to any point the
      files are always a contiguous suffix of all lines written if and only if every rotation on the way
      is safe. */
  lemma {:induction false} RunContiguousExactly(maxBytes: int, keep: nat, points: seq<Logged>, attempts: seq<Attempt>,
                                                n: nat)
    requires Run(maxBytes, keep, points, attempts) && n <= |attempts| && Contiguous(points[0], keep)
    ensures (forall i :: 0 <= i <= n ==> Contiguous(points[i], keep)) <==>
            (forall i :: 0 <= i < n ==> CallSafe(points[i], maxBytes, keep, attempts[i]))
  {
    if n > 0 {
      RunContiguousExactly(maxBytes, keep, points, attempts, n - 1);
      AnyWritesKeepFiles(maxBytes, keep, points, attempts, n - 1);
      assert points[n] == AfterCall(points[n - 1], maxBytes, keep, attempts[n - 1]);
      if Contiguous(points[n - 1], keep) {
        CallContiguousExactly(points[n - 1], maxBytes, keep, attempts[n - 1]);
      }
    }
  }

  /** In particular they are while no shift rename fails, whatever else does. */
  lemma NoFailedShiftIsSafe(maxBytes: int, keep: nat, points: seq<Logged>, attempts: seq<Attempt>, n: nat)
    requires Run(maxBytes, keep, points, attempts) && n <= |attempts| && Contiguous(points[0], keep)
    requires forall i :: 0 <= i < n ==> attempts[i].fails == {}
    ensures Contiguous(points[n], keep)
  {
    forall i | 0 <= i < n ensures CallSafe(points[i], maxBytes, keep, attempts[i]) {
      var t, over := points[i].files, Overlays(attempts[i].fault);
      if keep > 0 { NoFailuresSurvive(t.hist - {keep}, {}, keep - 1, over); }
    }
    RunContiguousExactly(maxBytes, keep, points, attempts, n);
  }

  // ---- When lines are lost ----

  /** A line that fits goes behind the others: no file of the history is touched and nothing is lost,
      whatever a rotation would have met. */
  lemma FittingLineIsAppended(s: State, maxBytes: int, keep: nat, line: Line, fault: Fault, fails: set<nat>)
    requires s.linked && s.currentSz == Bytes(s.base) && Bytes(s.base) + line.size <= maxBytes
    ensures var (t, ok) := AfterWrite(s, maxBytes, keep, line, fault, fails, false);
            && ok && t == s.(base := s.base + [line], currentSz := s.currentSz + line.size)
            && Retained(t, keep) == Retained(s, keep) + [line]
  {
    Associative(Concat(s.hist, keep), s.base, [line]);
  }

  /** A line that does not fit starts a new base file and the old base becomes .1; a first line is written
      however long it is. */
  lemma OtherLineStartsAFile(s: State, maxBytes: int, keep: nat, line: Line, fails: set<nat>)
    requires s.linked && s.currentSz == Bytes(s.base) && Bytes(s.base) + line.size > maxBytes && NoneEmpty(s.base)
    ensures var (t, ok) := AfterWrite(s, maxBytes, keep, line, NoFault, fails, false);
            && ok && t.base == [line] && t.currentSz == line.size && t.linked
            && if s.base == [] then t.hist == s.hist
               else keep > 0 ==> 1 in t.hist && t.hist[1] == s.base
  {
    EmptyIsZero(s.base);
    assert [] + [line] == [line];
  }

  /** A rotation that goes through loses the oldest file, .keep, and no line besides. */
  lemma RotationLosesTheOldest(s: State, keep: nat)
    requires keep > 0 && s.linked
    ensures Slot(s.hist, keep) + Retained(AfterRotate(s, keep, NoFault, {}), keep) == Retained(s, keep)
  {
    var h := s.hist - {keep};
    RotationRetains(s, keep, NoFault, {});
    WithoutOldest(s, keep);
    KeptAll(h, {}, keep - 1, true);
  }

  /** Until the history is full every call keeps every line: a rotation with nothing under .keep to drop
      loses none. */
  lemma NothingLostBeforeKeep(s: State, maxBytes: int, keep: nat, line: Line)
    requires keep > 0 && keep !in s.hist && s.linked
    ensures var (t, ok) := AfterWrite(s, maxBytes, keep, line, NoFault, {}, false);
            ok && Retained(t, keep) == Retained(s, keep) + [line]
  {
    RotationLosesTheOldest(s, keep);
    var t := if NeedsRotation(s, maxBytes, line) then AfterRotate(s, keep, NoFault, {}) else s;
    assert [] + Retained(t, keep) == Retained(t, keep);
    Associative(Concat(t.hist, keep), t.base, [line]);
  }

  /** The bytes of the first n calls' lines. */
  function Encoded(attempts: seq<Attempt>, n: nat): nat
    requires n <= |attempts|
  {
    if n == 0 then 0 else Encoded(attempts, n - 1) + attempts[n - 1].size
  }

  lemma BytesGrow(lines: seq<Line>, line: Line)
    ensures Bytes(lines + [line]) == Bytes(lines) + line.size
  {
    assert (lines + [line])[..|lines|] == lines;
  }

  /** A call whose line fits, the write itself failing or not. */
  lemma FittingCallLosesNothing(l: Logged, maxBytes: int, keep: nat, a: Attempt)
    requires l.files.linked && l.files.currentSz == Bytes(l.files.base) && Bytes(l.files.base) + a.size <= maxBytes
    ensures var l' := AfterCall(l, maxBytes, keep, a);
            var written := if a.writeFails then [] else [LineOf(l, a)];
            && l'.log == l.log + written && Retained(l'.files, keep) == Retained(l.files, keep) + written
            && l'.files.hist == l.files.hist && l'.files.linked
            && Bytes(l'.files.base) <= Bytes(l.files.base) + a.size
  {
    var line := LineOf(l, a);
    if a.writeFails {
      assert l.log + [] == l.log && Retained(l.files, keep) + [] == Retained(l.files, keep);
    } else {
      FittingLineIsAppended(l.files, maxBytes, keep, line, a.fault, a.fails);
      BytesGrow(l.files.base, line);
    }
  }

  /** From first to l only lines were added: the history is the same, and what the files hold is what they
      held and then what was written since. */
  predicate OnlyGained(first: Logged, l: Logged, keep: nat) {
    && l.files.hist == first.files.hist && l.files.linked && first.log <= l.log
    && Retained(l.files, keep) == Retained(first.files, keep) + l.log[|first.log|..]
  }

  lemma GainsMore(first: Logged, l: Logged, l': Logged, keep: nat, written: seq<Line>)
    requires OnlyGained(first, l, keep) && l'.files.hist == l.files.hist && l'.files.linked
    requires l'.log == l.log + written && Retained(l'.files, keep) == Retained(l.files, keep) + written
    ensures OnlyGained(first, l', keep)
  {
    var k := |first.log|;
    Associative(Retained(first.files, keep), l.log[k..], written);
    assert (l.log + written)[k..] == l.log[k..] + written;
  }

  /** Over whole runs: as long as the base and the new lines fit in one file, the history stays as it is, no
      line is lost, and what the files gain is what the calls wrote. */
  lemma {:induction false} FittingRunLosesNothing(maxBytes: int, keep: nat, points: seq<Logged>,
                                                  attempts: seq<Attempt>, n: nat)
    requires Run(maxBytes, keep, points, attempts) && n <= |attempts| && points[0].files.linked
    requires Bytes(points[0].files.base) + Encoded(attempts, n) <= maxBytes
    ensures OnlyGained(points[0], points[n], keep)
    ensures Bytes(points[n].files.base) <= Bytes(points[0].files.base) + Encoded(attempts, n)
  {
    if n == 0 {
      var first := points[0];
      assert first.log[|first.log|..] == [] && Retained(first.files, keep) + [] == Retained(first.files, keep);
    } else {
      var l, a := points[n - 1], attempts[n - 1];
      FittingRunLosesNothing(maxBytes, keep, points, attempts, n - 1);
      AnyWritesKeepFiles(maxBytes, keep, points, attempts, n - 1);
      FittingCallLosesNothing(l, maxBytes, keep, a);
      GainsMore(points[0], l, points[n], keep, if a.writeFails then [] else [LineOf(l, a)]);
    }
  }
}
