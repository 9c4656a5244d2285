/** Splitting a hunk at new-file lines (`split_hunk`, src/domain/patch.rs). */
module HunkSplit {
  import opened Text
  import opened Patch

  /** The body lines that carry a marker; `split_hunk` keeps no others when it splits. */
  function Marked(lines: seq<string>): (r: seq<string>)
    ensures forall l :: l in r ==> l in lines && !KindOf(l).Other?
  {
    if lines == [] then []
    else
      var before, line := Marked(lines[..|lines| - 1]), lines[|lines| - 1];
      if KindOf(line).Other? then before else before + [line]
  }

  /**
   * A body cut into its smallest pieces: each unit is the removals waiting for a kept line, that
   * line, and the no-newline markers after it. `tail` is what no kept line follows.
   */
  datatype Units = Units(units: seq<seq<string>>, tail: seq<string>)

  function UnitsOf(body: seq<string>): Units {
    if body == [] then Units([], []) else AddLine(UnitsOf(body[..|body| - 1]), body[|body| - 1])
  }

  function AddLine(u: Units, line: string): Units {
    match KindOf(line)
    case Other => u
    case Removed => u.(tail := u.tail + [line])
    case Added => Units(u.units + [u.tail + [line]], [])
    case Context => Units(u.units + [u.tail + [line]], [])
    case Marker =>
      if u.tail != [] || u.units == [] then u.(tail := u.tail + [line])
      else u.(units := u.units[..|u.units| - 1] + [u.units[|u.units| - 1] + [line]])
  }

  /** One more unit: a group of its own, or the end of the last group. */
  function AddUnit<T>(groups: seq<seq<T>>, u: T, starts: bool): (r: seq<seq<T>>)
    ensures r != []
    ensures (forall g :: g in groups ==> |g| > 0) ==> forall g :: g in r ==> |g| > 0
  {
    if groups == [] || starts then groups + [[u]]
    else groups[..|groups| - 1] + [groups[|groups| - 1] + [u]]
  }

  /** Consecutive units, a new group at unit `i > 0` whose new line `newFirst + i` is a cut. */
  function Grouped<T>(units: seq<T>, newFirst: nat, cuts: set<nat>): (groups: seq<seq<T>>)
    ensures (groups == []) == (units == [])
    ensures forall g :: g in groups ==> |g| > 0
  {
    if units == [] then []
    else
      var n := |units| - 1;
      AddUnit(Grouped(units[..n], newFirst, cuts), units[n], newFirst + n in cuts)
  }

  function Flat<T>(parts: seq<seq<T>>): seq<T> {
    if parts == [] then [] else Flat(parts[..|parts| - 1]) + parts[|parts| - 1]
  }

  function FlatEach<T>(groups: seq<seq<seq<T>>>): seq<seq<T>> {
    seq(|groups|, i requires 0 <= i < |groups| => Flat(groups[i]))
  }

  /** The body lines of each group of units. */
  function Bodies(units: seq<seq<string>>, newFirst: nat, cuts: set<nat>): seq<seq<string>> {
    FlatEach(Grouped(units, newFirst, cuts))
  }

  function WithTail(parts: seq<seq<string>>, tail: seq<string>): (r: seq<seq<string>>)
    ensures |r| > 0
  {
    if parts == [] then [tail] else parts[..|parts| - 1] + [parts[|parts| - 1] + tail]
  }

  /** The bodies of the pieces. */
  function SplitBodies(body: seq<string>, newFirst: nat, cuts: set<nat>): (bodies: seq<seq<string>>)
    ensures |bodies| > 0
  {
    var u := UnitsOf(body);
    WithTail(Bodies(u.units, newFirst, cuts), u.tail)
  }

  /** The range start to print: a zero-length range names the line before, if there is one. */
  function PrintedStart(first: nat, len: nat): nat { if len == 0 && first > 0 then first - 1 else first }

  function PieceRanges(oldFirst: nat, newFirst: nat, lines: seq<string>): Ranges {
    Ranges(PrintedStart(oldFirst, OldCount(lines)), OldCount(lines),
           PrintedStart(newFirst, NewCount(lines)), NewCount(lines))
  }

  function PieceHunk(oldFirst: nat, newFirst: nat, lines: seq<string>): Hunk {
    var r := PieceRanges(oldFirst, newFirst, lines);
    Hunk("", r.newStart, Join([Header(r)] + lines, '\n'))
  }

  /** The old and the new line body `i` starts at, the bodies laid end to end. */
  function OldAt(bodies: seq<seq<string>>, i: nat, oldFirst: nat): (at: nat)
    requires i <= |bodies|
    ensures at >= oldFirst
  {
    oldFirst + OldCount(Flat(bodies[..i]))
  }

  function NewAt(bodies: seq<seq<string>>, i: nat, newFirst: nat): (at: nat)
    requires i <= |bodies|
    ensures at >= newFirst
  {
    newFirst + NewCount(Flat(bodies[..i]))
  }

  /** Prints bodies laid end to end, the first at the given lines. */
  function PieceHunks(bodies: seq<seq<string>>, oldFirst: nat, newFirst: nat): (hunks: seq<Hunk>)
    ensures |hunks| == |bodies|
    ensures forall i :: 0 <= i < |hunks| ==>
      hunks[i] == PieceHunk(OldAt(bodies, i, oldFirst), NewAt(bodies, i, newFirst), bodies[i])
  {
    seq(|bodies|, i requires 0 <= i < |bodies| =>
      PieceHunk(OldAt(bodies, i, oldFirst), NewAt(bodies, i, newFirst), bodies[i]))
  }

  /** The line a range starts at; a zero-length range names the line before. */
  function First(start: nat, len: nat): nat { if len == 0 then start + 1 else start }

  /** A nonempty range starts at line 1 or later (POSIX.1-2017, `diff`, unified format). */
  predicate StartsFromOne(header: string) {
    match HunkRanges(header)
    case None => true
    case Some(r) => First(r.oldStart, r.oldLen) > 0 && First(r.newStart, r.newLen) > 0
  }

  /** The pieces of a hunk, if all of them can be printed. */
  function SplitPieces(h: Hunk, cuts: set<nat>): (pieces: seq<Hunk>)
    ensures |pieces| > 0
  {
    match HunkRanges(HunkHeader(h))
    case None => [h]
    case Some(r) =>
      var newFirst := First(r.newStart, r.newLen);
      var bodies := SplitBodies(HunkBody(h), newFirst, cuts);
      if |bodies| == 1 then [h] else PieceHunks(bodies, First(r.oldStart, r.oldLen), newFirst)
  }

  /** The old range starts at line 0, and the first of several pieces has no old line to name one before. */
  predicate Underflows(h: Hunk, cuts: set<nat>) {
    match HunkRanges(HunkHeader(h))
    case None => false
    case Some(r) =>
      var bodies := SplitBodies(HunkBody(h), First(r.newStart, r.newLen), cuts);
      |bodies| > 1 && First(r.oldStart, r.oldLen) == 0 && OldCount(bodies[0]) == 0
  }

  function CutSet(cuts: seq<nat>): set<nat> { set c | c in cuts }

  /** One piece under construction (`struct Piece`). */
  datatype Piece = Piece(lines: seq<string>, oldFirst: nat, newFirst: nat, oldCount: nat, newCount: nat)

  function PieceText(p: Piece): Hunk {
    var r := Ranges(PrintedStart(p.oldFirst, p.oldCount), p.oldCount, PrintedStart(p.newFirst, p.newCount), p.newCount);
    Hunk("", r.newStart, Join([Header(r)] + p.lines, '\n'))
  }

  // ----- facts about sequences, flattening and grouping -----

  lemma AppendLast<T>(a: seq<T>, b: seq<T>)
    requires b != []
    ensures a + b == (a + b[..|b| - 1]) + [b[|b| - 1]]
  {
  }

  lemma LastSplit<T>(a: seq<T>)
    requires a != []
    ensures a[..|a| - 1] + [a[|a| - 1]] == a
  {
  }

  lemma DropLast<T>(a: seq<T>, x: T)
    ensures (a + [x])[..|a + [x]| - 1] == a && (a + [x])[|a + [x]| - 1] == x
  {
  }

  lemma PrefixOfAppend<T>(a: seq<T>, b: seq<T>, i: nat)
    requires i <= |a + b|
    ensures (a + b)[..i] == if i <= |a| then a[..i] else a + b[..i - |a|]
    ensures i == |a| ==> (a + b)[..i] == a + b[..0]
  {
  }

  lemma FlatSnoc<T>(parts: seq<seq<T>>, last: seq<T>)
    ensures Flat(parts + [last]) == Flat(parts) + last
  {
    assert (parts + [last])[..|parts|] == parts;
  }

  lemma FlatNothing<T>(parts: seq<seq<T>>)
    requires |parts| == 0
    ensures Flat(parts) == []
  {
  }

  lemma {:induction false} FlatAppend<T>(a: seq<seq<T>>, b: seq<seq<T>>)
    ensures Flat(a + b) == Flat(a) + Flat(b)
  {
    hide Flat;
    if b == [] {
      FlatNothing(b);
      assert a + b == a && Flat(a) + [] == Flat(a);
    } else {
      var init, last := b[..|b| - 1], b[|b| - 1];
      assert b == init + [last] && a + b == a + init + [last];
      FlatSnoc(a + init, last);
      FlatSnoc(init, last);
      FlatAppend(a, init);
      Assoc(Flat(a), Flat(init), last);
    }
  }

  lemma FlatOne<T>(parts: seq<seq<T>>)
    requires |parts| == 1
    ensures Flat(parts) == parts[0] && parts == [parts[0]]
  {
    assert Flat(parts) == Flat(parts[..0]) + parts[0] == [] + parts[0];
  }

  lemma FlatEachSnoc<T>(groups: seq<seq<seq<T>>>, last: seq<seq<T>>)
    ensures FlatEach(groups + [last]) == FlatEach(groups) + [Flat(last)]
  {
  }

  lemma GroupedStep<T>(units: seq<T>, u: T, newFirst: nat, cuts: set<nat>)
    ensures Grouped(units + [u], newFirst, cuts) ==
      AddUnit(Grouped(units, newFirst, cuts), u, newFirst + |units| in cuts)
  {
    hide AddUnit;
    assert (units + [u])[..|units|] == units;
  }

  lemma GroupedSnoc<T>(units: seq<T>, u: T, newFirst: nat, cuts: set<nat>)
    ensures var before := Grouped(units, newFirst, cuts);
      Grouped(units + [u], newFirst, cuts) ==
        if units == [] then [[u]]
        else if newFirst + |units| in cuts then before + [[u]]
        else before[..|before| - 1] + [before[|before| - 1] + [u]]
  {
    GroupedStep(units, u, newFirst, cuts);
    hide Grouped;
  }

  /** One more unit: a new body when its line is a cut, else it joins the last body. */
  lemma BodiesSnoc(units: seq<seq<string>>, unit: seq<string>, newFirst: nat, cuts: set<nat>)
    ensures var before := Bodies(units, newFirst, cuts);
      Bodies(units + [unit], newFirst, cuts) ==
        if units == [] then [unit]
        else if newFirst + |units| in cuts then before + [unit]
        else before[..|before| - 1] + [before[|before| - 1] + unit]
  {
    hide Grouped, Flat;
    GroupedSnoc(units, unit, newFirst, cuts);
    FlatOne([unit]);
    var groups := Grouped(units, newFirst, cuts);
    if units == [] {
      FlatEachSnoc([], [unit]);
      assert FlatEach<string>([]) + [unit] == [unit] && [] + [[unit]] == [[unit]];
    } else if newFirst + |units| in cuts {
      FlatEachSnoc(groups, [unit]);
    } else {
      var n := |groups| - 1;
      FlatSnoc(groups[n], unit);
      FlatEachSnoc(groups[..n], groups[n] + [unit]);
      FlatEachSnoc(groups[..n], groups[n]);
      assert groups[..n] + [groups[n]] == groups;
    }
  }

  /** A longer last unit makes the last body longer. */
  lemma BodiesExtend(units: seq<seq<string>>, unit: seq<string>, line: string, newFirst: nat, cuts: set<nat>)
    ensures var before := Bodies(units + [unit], newFirst, cuts);
      && |before| > 0
      && Bodies(units + [unit + [line]], newFirst, cuts)
         == before[..|before| - 1] + [before[|before| - 1] + [line]]
  {
    assert |Bodies(units, newFirst, cuts)| == 0 <==> units == [];
    hide Bodies;
    BodiesSnoc(units, unit, newFirst, cuts);
    BodiesSnoc(units, unit + [line], newFirst, cuts);
    var before := Bodies(units, newFirst, cuts);
    if units != [] && newFirst + |units| !in cuts {
      var last := before[|before| - 1];
      assert last + (unit + [line]) == last + unit + [line];
    }
  }

  // ----- the loop -----

  predicate NoneKept(lines: seq<string>) { forall l :: l in lines ==> KindOf(l).Removed? || KindOf(l).Marker? }

  lemma {:induction false} RemovalsAreOld(lines: seq<string>)
    requires NoneKept(lines)
    ensures Count(IsRemoved, lines) == OldCount(lines) && NewCount(lines) == 0
  {
    if lines != [] { RemovalsAreOld(lines[..|lines| - 1]); }
  }

  lemma CountSnoc(p: string -> bool, lines: seq<string>, line: string)
    ensures Count(p, lines + [line]) == Count(p, lines) + if p(line) then 1 else 0
  {
    assert (lines + [line])[..|lines|] == lines;
  }

  /** A piece's own counters agree with its lines. */
  predicate Counted(p: Piece) {
    p.oldCount == OldCount(p.lines) && p.newCount == NewCount(p.lines)
  }

  function OldTotal(pieces: seq<Piece>): nat {
    if pieces == [] then 0 else OldTotal(pieces[..|pieces| - 1]) + pieces[|pieces| - 1].oldCount
  }

  function NewTotal(pieces: seq<Piece>): nat {
    if pieces == [] then 0 else NewTotal(pieces[..|pieces| - 1]) + pieces[|pieces| - 1].newCount
  }

  /** Pieces that start at the given lines and follow each other without gaps. */
  predicate Chained(pieces: seq<Piece>, oldFirst: nat, newFirst: nat) {
    pieces == [] ||
    (var init, last := pieces[..|pieces| - 1], pieces[|pieces| - 1];
     && Chained(init, oldFirst, newFirst) && Counted(last)
     && last.oldFirst == oldFirst + OldTotal(init) && last.newFirst == newFirst + NewTotal(init))
  }

  function PieceLines(pieces: seq<Piece>): (lines: seq<seq<string>>)
    ensures |lines| == |pieces|
  {
    seq(|pieces|, i requires 0 <= i < |pieces| => pieces[i].lines)
  }

  lemma LinesSnoc(done: seq<Piece>, p: Piece)
    ensures PieceLines(done + [p]) == PieceLines(done) + [p.lines]
  {
  }

  lemma ChainedSnoc(pieces: seq<Piece>, last: Piece, next: Piece, oldFirst: nat, newFirst: nat)
    requires Chained(pieces + [last], oldFirst, newFirst)
    requires next.oldFirst == last.oldFirst + last.oldCount && next.newFirst == last.newFirst + last.newCount
    requires Counted(next)
    ensures Chained(pieces + [last] + [next], oldFirst, newFirst)
  {
    var all := pieces + [last];
    assert all[..|pieces|] == pieces && (all + [next])[..|all|] == all;
  }

  lemma ChainedOne(none: seq<Piece>, p: Piece)
    requires none == [] && Counted(p)
    ensures Chained(none + [p], p.oldFirst, p.newFirst)
  {
    assert none + [p] == [p];
  }

  /** The last piece of a chain may grow. */
  lemma ChainedGrow(pieces: seq<Piece>, last: Piece, grown: Piece, oldFirst: nat, newFirst: nat)
    requires Chained(pieces + [last], oldFirst, newFirst)
    requires grown.oldFirst == last.oldFirst && grown.newFirst == last.newFirst && Counted(grown)
    ensures Chained(pieces + [grown], oldFirst, newFirst)
  {
    assert (pieces + [last])[..|pieces|] == pieces && (pieces + [grown])[..|pieces|] == pieces;
  }

  lemma LayoutOfNothing(oldFirst: nat, newFirst: nat)
    ensures IsLayout([], oldFirst, newFirst)
  {
  }

  /** Totals and starts are those of the lines laid end to end. */
  ghost predicate IsLayout(pieces: seq<Piece>, oldFirst: nat, newFirst: nat) {
    var lines := PieceLines(pieces);
    && OldTotal(pieces) == OldCount(Flat(lines)) && NewTotal(pieces) == NewCount(Flat(lines))
    && forall i :: 0 <= i < |pieces| ==>
      && Counted(pieces[i])
      && pieces[i].oldFirst == OldAt(lines, i, oldFirst) && pieces[i].newFirst == NewAt(lines, i, newFirst)
  }

  lemma LayoutSnoc(init: seq<Piece>, last: Piece, oldFirst: nat, newFirst: nat)
    requires IsLayout(init, oldFirst, newFirst) && Counted(last)
    requires last.oldFirst == oldFirst + OldTotal(init) && last.newFirst == newFirst + NewTotal(init)
    ensures IsLayout(init + [last], oldFirst, newFirst)
  {
    hide Flat, Count, OldTotal, NewTotal, PieceLines;
    var pieces, lines := init + [last], PieceLines(init);
    TotalsSnoc(init, last);
    LinesSnoc(init, last);
    FlatSnoc(lines, last.lines);
    CountAppend(IsOldSide, Flat(lines), last.lines);
    CountAppend(IsKept, Flat(lines), last.lines);
    forall i | 0 <= i < |pieces| ensures PieceLines(pieces)[..i] == lines[..i] {
      PrefixOfAppend(lines, [last.lines], i);
    }
    assert lines[..|lines|] == lines;
  }

  lemma TotalsSnoc(init: seq<Piece>, last: Piece)
    ensures OldTotal(init + [last]) == OldTotal(init) + last.oldCount
    ensures NewTotal(init + [last]) == NewTotal(init) + last.newCount
  {
    assert (init + [last])[..|init|] == init;
  }

  /** A chain lays its lines out end to end. */
  lemma {:induction false} ChainedLayout(pieces: seq<Piece>, oldFirst: nat, newFirst: nat)
    requires Chained(pieces, oldFirst, newFirst)
    ensures IsLayout(pieces, oldFirst, newFirst)
  {
    hide IsLayout, OldTotal, NewTotal, Counted;
    if pieces == [] {
      LayoutOfNothing(oldFirst, newFirst);
    } else {
      var init, last := pieces[..|pieces| - 1], pieces[|pieces| - 1];
      ChainedLayout(init, oldFirst, newFirst);
      LayoutSnoc(init, last, oldFirst, newFirst);
      assert init + [last] == pieces;
    }
  }

  /** A counted piece prints as its lines do. */
  lemma PieceTextIs(p: Piece)
    requires Counted(p)
    ensures PieceText(p) == PieceHunk(p.oldFirst, p.newFirst, p.lines)
  {
  }

  // ----- the loop's state against the units read so far -----

  /** The closed pieces, the open one and the waiting removals hold exactly the units read so far. */
  ghost predicate Reflects(u: Units, closed: seq<seq<string>>, open: seq<string>, started: bool, pending: seq<string>,
                           newFirst: nat, cuts: set<nat>)
  {
    if u.units == [] then closed == [] && !started && open + pending == u.tail
    else started && pending == u.tail && closed + [open] == Bodies(u.units, newFirst, cuts)
  }

  lemma ReflectsKept(u: Units, closed: seq<seq<string>>, open: seq<string>, started: bool, pending: seq<string>,
                     line: string, newFirst: nat, cuts: set<nat>)
    requires Reflects(u, closed, open, started, pending, newFirst, cuts) && IsKept(line)
    ensures if newFirst + |u.units| in cuts && started
      then Reflects(AddLine(u, line), closed + [open], pending + [line], true, [], newFirst, cuts)
      else Reflects(AddLine(u, line), closed, open + pending + [line], true, [], newFirst, cuts)
  {
    var unit := u.tail + [line];
    BodiesSnoc(u.units, unit, newFirst, cuts);
    var bodies := Bodies(u.units, newFirst, cuts);
    if started {
      assert closed == bodies[..|bodies| - 1] && open == bodies[|bodies| - 1];
      assert open + pending + [line] == open + unit;
    }
  }

  lemma ReflectsMarker(u: Units, closed: seq<seq<string>>, open: seq<string>, started: bool, pending: seq<string>,
                       line: string, newFirst: nat, cuts: set<nat>)
    requires Reflects(u, closed, open, started, pending, newFirst, cuts) && IsMarker(line) && pending == []
    ensures Reflects(AddLine(u, line), closed, open + [line], started, pending, newFirst, cuts)
  {
    if started {
      var n := |u.units| - 1;
      assert u.units[..n] + [u.units[n]] == u.units;
      BodiesExtend(u.units[..n], u.units[n], line, newFirst, cuts);
      var bodies := Bodies(u.units, newFirst, cuts);
      assert closed == bodies[..|bodies| - 1];
    } else {
      assert open + [] == open && open + [line] + [] == open + [line];
    }
  }

  lemma ReflectsWaiting(u: Units, closed: seq<seq<string>>, open: seq<string>, started: bool, pending: seq<string>,
                        line: string, newFirst: nat, cuts: set<nat>)
    requires Reflects(u, closed, open, started, pending, newFirst, cuts)
    requires IsRemoved(line) || (IsMarker(line) && pending != [])
    ensures Reflects(AddLine(u, line), closed, open, started, pending + [line], newFirst, cuts)
  {
    assert open + (pending + [line]) == open + pending + [line];
  }

  lemma CountPiece(lines: seq<string>, pending: seq<string>, line: string)
    requires NoneKept(pending) && IsKept(line)
    ensures OldCount(lines + pending + [line])
         == OldCount(lines) + Count(IsRemoved, pending) + if KindOf(line).Context? then 1 else 0
    ensures NewCount(lines + pending + [line]) == NewCount(lines) + 1
  {
    RemovalsAreOld(pending);
    CountAppend(IsOldSide, lines, pending);
    CountAppend(IsKept, lines, pending);
    CountSnoc(IsOldSide, lines + pending, line);
    CountSnoc(IsKept, lines + pending, line);
  }

  /** The open piece after a kept line. */
  function KeptPiece(p: Piece, pending: seq<string>, line: string): Piece {
    Piece(p.lines + pending + [line], p.oldFirst, p.newFirst,
          p.oldCount + Count(IsRemoved, pending) + (if KindOf(line).Context? then 1 else 0), p.newCount + 1)
  }

  lemma KeepLine(done: seq<Piece>, p: Piece, pending: seq<string>, line: string, oldFirst: nat, newFirst: nat)
    requires NoneKept(pending) && IsKept(line) && Counted(p) && Chained(done + [p], oldFirst, newFirst)
    ensures var q := KeptPiece(p, pending, line); Counted(q) && Chained(done + [q], oldFirst, newFirst)
  {
    CountPiece(p.lines, pending, line);
    ChainedGrow(done, p, KeptPiece(p, pending, line), oldFirst, newFirst);
  }

  /** A kept line at a cut closes the open piece and starts `next`. */
  lemma ReflectsCut(u: Units, done: seq<Piece>, p: Piece, next: Piece, pending: seq<string>, line: string,
                    newFirst: nat, cuts: set<nat>)
    requires Reflects(u, PieceLines(done), p.lines, p.newCount > 0, pending, newFirst, cuts)
    requires IsKept(line) && next.lines == [] && newFirst + |u.units| in cuts && p.newCount > 0
    ensures var open := KeptPiece(next, pending, line);
      Reflects(AddLine(u, line), PieceLines(done + [p]), open.lines, open.newCount > 0, [], newFirst, cuts)
  {
    ReflectsKept(u, PieceLines(done), p.lines, p.newCount > 0, pending, line, newFirst, cuts);
    LinesSnoc(done, p);
    assert [] + pending + [line] == pending + [line];
  }

  /** Any other kept line joins the open piece. */
  lemma ReflectsJoin(u: Units, done: seq<Piece>, p: Piece, pending: seq<string>, line: string,
                     newFirst: nat, cuts: set<nat>)
    requires Reflects(u, PieceLines(done), p.lines, p.newCount > 0, pending, newFirst, cuts)
    requires IsKept(line) && !(newFirst + |u.units| in cuts && p.newCount > 0)
    ensures var open := KeptPiece(p, pending, line);
      Reflects(AddLine(u, line), PieceLines(done), open.lines, open.newCount > 0, [], newFirst, cuts)
  {
    ReflectsKept(u, PieceLines(done), p.lines, p.newCount > 0, pending, line, newFirst, cuts);
  }

  /** The counters and pieces of the loop agree with each other. */
  ghost predicate Tracks(done: seq<Piece>, current: Piece, pending: seq<string>, pendingOldFirst: nat,
                         oldNext: nat, newNext: nat, oldFirst: nat, newFirst: nat)
  {
    && NoneKept(pending) && Counted(current) && Chained(done + [current], oldFirst, newFirst)
    && oldNext == current.oldFirst + current.oldCount + OldCount(pending)
    && newNext == current.newFirst + current.newCount
    && (pending != [] ==> pendingOldFirst == current.oldFirst + current.oldCount)
  }

  /** The piece a cut starts. */
  function NextPiece(pending: seq<string>, pendingOldFirst: nat, oldNext: nat, newNext: nat): Piece {
    Piece([], if pending == [] then oldNext else pendingOldFirst, newNext, 0, 0)
  }

  function AfterLine(oldNext: nat, line: string): nat { if IsOldSide(line) then oldNext + 1 else oldNext }

  lemma TracksWaiting(done: seq<Piece>, current: Piece, pending: seq<string>, pendingOldFirst: nat,
                      oldNext: nat, newNext: nat, oldFirst: nat, newFirst: nat, line: string)
    requires Tracks(done, current, pending, pendingOldFirst, oldNext, newNext, oldFirst, newFirst)
    requires IsRemoved(line) || (IsMarker(line) && pending != [])
    ensures Tracks(done, current, pending + [line], if pending == [] then oldNext else pendingOldFirst,
                   AfterLine(oldNext, line), newNext, oldFirst, newFirst)
  {
    CountSnoc(IsOldSide, pending, line);
  }

  lemma TracksCut(done: seq<Piece>, current: Piece, pending: seq<string>, pendingOldFirst: nat,
                  oldNext: nat, newNext: nat, oldFirst: nat, newFirst: nat, line: string)
    requires Tracks(done, current, pending, pendingOldFirst, oldNext, newNext, oldFirst, newFirst) && IsKept(line)
    ensures Tracks(done + [current],
                   KeptPiece(NextPiece(pending, pendingOldFirst, oldNext, newNext), pending, line), [], pendingOldFirst,
                   AfterLine(oldNext, line), newNext + 1, oldFirst, newFirst)
  {
    var next := NextPiece(pending, pendingOldFirst, oldNext, newNext);
    RemovalsAreOld(pending);
    hide Chained, OldCount, NewCount;
    assert Counted(next) by { assert Count(IsOldSide, []) == 0 && Count(IsKept, []) == 0; }
    ChainedSnoc(done, current, next, oldFirst, newFirst);
    KeepLine(done + [current], next, pending, line, oldFirst, newFirst);
  }

  lemma TracksJoin(done: seq<Piece>, current: Piece, pending: seq<string>, pendingOldFirst: nat,
                   oldNext: nat, newNext: nat, oldFirst: nat, newFirst: nat, line: string)
    requires Tracks(done, current, pending, pendingOldFirst, oldNext, newNext, oldFirst, newFirst) && IsKept(line)
    ensures Tracks(done, KeptPiece(current, pending, line), [], pendingOldFirst,
                   AfterLine(oldNext, line), newNext + 1, oldFirst, newFirst)
  {
    RemovalsAreOld(pending);
    KeepLine(done, current, pending, line, oldFirst, newFirst);
  }

  lemma TracksMarker(done: seq<Piece>, current: Piece, pending: seq<string>, pendingOldFirst: nat,
                     oldNext: nat, newNext: nat, oldFirst: nat, newFirst: nat, line: string)
    requires Tracks(done, current, pending, pendingOldFirst, oldNext, newNext, oldFirst, newFirst) && IsMarker(line)
    ensures Tracks(done, current.(lines := current.lines + [line]), pending, pendingOldFirst,
                   oldNext, newNext, oldFirst, newFirst)
  {
    CountSnoc(IsOldSide, current.lines, line);
    CountSnoc(IsKept, current.lines, line);
    ChainedGrow(done, current, current.(lines := current.lines + [line]), oldFirst, newFirst);
  }

  /** The open piece after the last line takes the removals still waiting. */
  function LastPiece(current: Piece, pending: seq<string>): Piece {
    current.(oldCount := current.oldCount + Count(IsRemoved, pending), lines := current.lines + pending)
  }

  lemma TracksAll(done: seq<Piece>, current: Piece, pending: seq<string>, pendingOldFirst: nat,
                  oldNext: nat, newNext: nat, oldFirst: nat, newFirst: nat)
    requires Tracks(done, current, pending, pendingOldFirst, oldNext, newNext, oldFirst, newFirst)
    ensures Chained(done + [LastPiece(current, pending)], oldFirst, newFirst)
  {
    RemovalsAreOld(pending);
    CountAppend(IsOldSide, current.lines, pending);
    CountAppend(IsKept, current.lines, pending);
    ChainedGrow(done, current, LastPiece(current, pending), oldFirst, newFirst);
  }

  lemma ReflectsAll(body: seq<string>, done: seq<Piece>, current: Piece, pending: seq<string>, newFirst: nat,
                    cuts: set<nat>)
    requires Reflects(UnitsOf(body), PieceLines(done), current.lines, current.newCount > 0, pending, newFirst, cuts)
    ensures PieceLines(done + [LastPiece(current, pending)]) == SplitBodies(body, newFirst, cuts)
  {
    LinesSnoc(done, LastPiece(current, pending));
    var u := UnitsOf(body);
    if u.units != [] {
      var bodies := Bodies(u.units, newFirst, cuts);
      assert bodies[..|bodies| - 1] == PieceLines(done);
    }
  }

  /** The loop invariant of `ReadPieces`. */
  ghost predicate Reads(u: Units, done: seq<Piece>, current: Piece, pending: seq<string>, pendingOldFirst: nat,
                        oldNext: nat, newNext: nat, oldFirst: nat, newFirst: nat, cuts: set<nat>)
  {
    && newNext == newFirst + |u.units|
    && Tracks(done, current, pending, pendingOldFirst, oldNext, newNext, oldFirst, newFirst)
    && Reflects(u, PieceLines(done), current.lines, current.newCount > 0, pending, newFirst, cuts)
  }

  lemma UnitsCount(u: Units, line: string)
    ensures |AddLine(u, line).units| == |u.units| + if IsKept(line) then 1 else 0
    ensures !IsRemoved(line) && !IsKept(line) && !IsMarker(line) ==> AddLine(u, line) == u
  {
  }

  lemma UnitsSnoc(lines: seq<string>, line: string)
    ensures UnitsOf(lines + [line]) == AddLine(UnitsOf(lines), line)
  {
    assert (lines + [line])[..|lines|] == lines;
  }

  lemma ReadsNothing(current: Piece, oldFirst: nat, newFirst: nat, cuts: set<nat>)
    requires current == Piece([], oldFirst, newFirst, 0, 0)
    ensures Reads(UnitsOf([]), [], current, [], oldFirst, oldFirst, newFirst, oldFirst, newFirst, cuts)
  {
    ChainedOne([], current);
  }

  /** After the last line. */
  lemma ReadsAll(body: seq<string>, done: seq<Piece>, current: Piece, pending: seq<string>, pendingOldFirst: nat,
                 oldNext: nat, newNext: nat, oldFirst: nat, newFirst: nat, cuts: set<nat>)
    requires Reads(UnitsOf(body), done, current, pending, pendingOldFirst, oldNext, newNext, oldFirst, newFirst, cuts)
    ensures var all := done + [LastPiece(current, pending)];
      Chained(all, oldFirst, newFirst) && PieceLines(all) == SplitBodies(body, newFirst, cuts)
  {
    hide Tracks, Reflects, UnitsOf, LastPiece, Chained, SplitBodies;
    TracksAll(done, current, pending, pendingOldFirst, oldNext, newNext, oldFirst, newFirst);
    ReflectsAll(body, done, current, pending, newFirst, cuts);
  }

  /** The loop body of `split_hunk` for one line. */
  method ReadLine(done: seq<Piece>, current: Piece, pending: seq<string>, pendingOldFirst: nat, oldNext: nat,
                  newNext: nat, line: string, cuts: seq<nat>, ghost cutSet: set<nat>, ghost u: Units,
                  ghost oldFirst: nat, ghost newFirst: nat)
    returns (done': seq<Piece>, current': Piece, pending': seq<string>, pendingOldFirst': nat, oldNext': nat,
             newNext': nat)
    requires cutSet == CutSet(cuts)
    requires Reads(u, done, current, pending, pendingOldFirst, oldNext, newNext, oldFirst, newFirst, cutSet)
    ensures Reads(AddLine(u, line), done', current', pending', pendingOldFirst', oldNext', newNext',
                  oldFirst, newFirst, cutSet)
    ensures done' == done || (done' == done + [current] && current.newCount > 0)
  {
    UnitsCount(u, line);
    hide AddLine, Tracks, Reflects, KeptPiece, PieceLines;
    done', current', pending' := done, current, pending;
    pendingOldFirst', oldNext', newNext' := pendingOldFirst, oldNext, newNext;
    if IsRemoved(line) {
      TracksWaiting(done, current, pending, pendingOldFirst, oldNext, newNext, oldFirst, newFirst, line);
      ReflectsWaiting(u, PieceLines(done), current.lines, current.newCount > 0, pending, line, newFirst, cutSet);
      pendingOldFirst' := if pending == [] then oldNext else pendingOldFirst;
      pending' := pending + [line];
      oldNext' := AfterLine(oldNext, line);
    } else if IsKept(line) {
      if newNext in cuts && current.newCount > 0 {
        var next := NextPiece(pending, pendingOldFirst, oldNext, newNext);
        ReflectsCut(u, done, current, next, pending, line, newFirst, cutSet);
        TracksCut(done, current, pending, pendingOldFirst, oldNext, newNext, oldFirst, newFirst, line);
        done', current' := done + [current], KeptPiece(next, pending, line);
      } else {
        ReflectsJoin(u, done, current, pending, line, newFirst, cutSet);
        TracksJoin(done, current, pending, pendingOldFirst, oldNext, newNext, oldFirst, newFirst, line);
        current' := KeptPiece(current, pending, line);
      }
      pending', oldNext', newNext' := [], AfterLine(oldNext, line), newNext + 1;
    } else if IsMarker(line) && pending != [] {
      TracksWaiting(done, current, pending, pendingOldFirst, oldNext, newNext, oldFirst, newFirst, line);
      ReflectsWaiting(u, PieceLines(done), current.lines, current.newCount > 0, pending, line, newFirst, cutSet);
      pending' := pending + [line];
    } else if IsMarker(line) {
      TracksMarker(done, current, pending, pendingOldFirst, oldNext, newNext, oldFirst, newFirst, line);
      ReflectsMarker(u, PieceLines(done), current.lines, current.newCount > 0, pending, line, newFirst, cutSet);
      current' := current.(lines := current.lines + [line]);
    }
  }

  /**
   * The loop of `split_hunk`: reads the body into pieces. The source's `last_was_removal` is
   * `pending != []`: both are set by a removal and cleared by a kept line.
   */
  method ReadPieces(body: seq<string>, cuts: seq<nat>, oldFirst: nat, newFirst: nat) returns (done: seq<Piece>)
    ensures Chained(done, oldFirst, newFirst)
    ensures PieceLines(done) == SplitBodies(body, newFirst, CutSet(cuts))
    ensures forall i :: 0 <= i < |done| - 1 ==> done[i].newCount > 0
  {
    hide Reads, UnitsOf, LastPiece, Chained, SplitBodies, PieceLines;
    var oldNext, newNext := oldFirst, newFirst;
    done := [];
    var current := Piece([], oldNext, newNext, 0, 0);
    var pending: seq<string> := [];
    var pendingOldFirst := oldNext;
    ghost var cutSet := CutSet(cuts);
    ReadsNothing(current, oldFirst, newFirst, cutSet);
    for i := 0 to |body|
      invariant Reads(UnitsOf(body[..i]), done, current, pending, pendingOldFirst, oldNext, newNext,
                      oldFirst, newFirst, cutSet)
      invariant forall j :: 0 <= j < |done| ==> done[j].newCount > 0
    {
      UnitsSnoc(body[..i], body[i]);
      assert body[..i + 1] == body[..i] + [body[i]];
      done, current, pending, pendingOldFirst, oldNext, newNext :=
        ReadLine(done, current, pending, pendingOldFirst, oldNext, newNext, body[i], cuts, cutSet,
                 UnitsOf(body[..i]), oldFirst, newFirst);
    }
    assert body[..|body|] == body;
    ReadsAll(body, done, current, pending, pendingOldFirst, oldNext, newNext, oldFirst, newFirst, cutSet);
    done := done + [LastPiece(current, pending)];
  }

  /** No piece takes one from line 0. */
  predicate Printable(done: seq<Piece>) {
    forall i :: 0 <= i < |done| ==>
      (done[i].oldCount == 0 ==> done[i].oldFirst > 0) && (done[i].newCount == 0 ==> done[i].newFirst > 0)
  }

  function PieceTexts(done: seq<Piece>): (hunks: seq<Hunk>)
    ensures |hunks| == |done|
  {
    seq(|done|, i requires 0 <= i < |done| => PieceText(done[i]))
  }

  lemma PiecesPrint(done: seq<Piece>, oldFirst: nat, newFirst: nat)
    requires Chained(done, oldFirst, newFirst)
    ensures PieceTexts(done) == PieceHunks(PieceLines(done), oldFirst, newFirst)
  {
    ChainedLayout(done, oldFirst, newFirst);
    hide PieceHunk, PieceText, PieceHunks;
    forall i | 0 <= i < |done|
      ensures PieceText(done[i]) == PieceHunk(done[i].oldFirst, done[i].newFirst, done[i].lines)
    {
      PieceTextIs(done[i]);
    }
  }

  /** Where the pieces of a chain start, from the first on. */
  lemma {:induction false} ChainedFrom(done: seq<Piece>, oldFirst: nat, newFirst: nat)
    requires Chained(done, oldFirst, newFirst) && |done| > 0
    ensures done[0].oldFirst == oldFirst && done[0].newFirst == newFirst && Counted(done[0])
    ensures OldTotal(done) >= done[0].oldCount && NewTotal(done) >= done[0].newCount
    ensures forall i :: 1 <= i < |done| ==>
      done[i].oldFirst >= oldFirst + done[0].oldCount && done[i].newFirst >= newFirst + done[0].newCount
  {
    hide Counted;
    if |done| > 1 { ChainedFrom(done[..|done| - 1], oldFirst, newFirst); }
  }

  /** Several pieces, all but the last with a new line, can be printed unless the first starts from nothing. */
  lemma {:induction false} PrintableExactly(done: seq<Piece>, oldFirst: nat, newFirst: nat)
    requires Chained(done, oldFirst, newFirst) && |done| > 1
    requires forall i :: 0 <= i < |done| - 1 ==> done[i].newCount > 0
    ensures Printable(done) <==> !(oldFirst == 0 && OldCount(PieceLines(done)[0]) == 0)
  {
    ChainedFrom(done, oldFirst, newFirst);
    hide Chained, OldCount, NewCount;
    assert done[0].newCount > 0 && done[0].oldCount == OldCount(done[0].lines);
  }

  /** A nonempty range that starts at line 1 or later never underflows. */
  lemma StartsFromOneSplits(h: Hunk, cuts: set<nat>)
    ensures StartsFromOne(HunkHeader(h)) ==> !Underflows(h, cuts)
  {
  }

  /** `split_hunk`; none when the subtraction for a zero-length range of some piece underflows. */
  method SplitHunk(h: Hunk, cuts: seq<nat>) returns (pieces: Option<seq<Hunk>>)
    ensures pieces == if Underflows(h, CutSet(cuts)) then None else Some(SplitPieces(h, CutSet(cuts)))
  {
    hide HunkHeader, HunkBody, HunkRanges, Chained, Printable, PieceTexts, PieceHunks, SplitBodies;
    var ranges := HunkRanges(HunkHeader(h));
    if ranges.None? { return Some([h]); }
    var r := ranges.value;
    var oldFirst, newFirst := First(r.oldStart, r.oldLen), First(r.newStart, r.newLen);
    var done := ReadPieces(HunkBody(h), cuts, oldFirst, newFirst);
    if |done| == 1 { return Some([h]); }
    PrintableExactly(done, oldFirst, newFirst);
    if !Printable(done) { return None; }
    PiecesPrint(done, oldFirst, newFirst);
    pieces := Some(PieceTexts(done));
  }
}
