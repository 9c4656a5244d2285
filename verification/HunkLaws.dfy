/** What splitting a hunk keeps: bodies, counts, starts, composition and reparsing. */
module HunkLaws {
  import opened Text
  import opened Patch
  import opened HunkSplit

  // ----- units -----

  /** A nonempty run of lines that reads as one unit. */
  ghost predicate IsUnit(unit: seq<string>) { unit != [] && UnitsOf(unit) == Units([unit], []) }

  /** Each unit stands on its own, and only the first of a body may begin with a marker. */
  ghost predicate StandsAlone(u: Units) {
    && (forall i :: 0 <= i < |u.units| ==> IsUnit(u.units[i]))
    && (forall i :: 0 < i < |u.units| ==> !IsMarker(u.units[i][0]))
    && UnitsOf(u.tail) == Units([], u.tail)
    && (u.units != [] && u.tail != [] ==> !IsMarker(u.tail[0]))
  }

  lemma KeptStandsAlone(u: Units, line: string)
    requires StandsAlone(u) && IsKept(line)
    ensures StandsAlone(AddLine(u, line))
  {
    var unit := u.tail + [line];
    UnitsSnoc(u.tail, line);
    assert IsUnit(unit) by { assert [] + [unit] == [unit]; }
    assert unit[0] == if u.tail == [] then line else u.tail[0];
  }

  /** A marker after a unit belongs to it. */
  lemma UnitTakesMarker(unit: seq<string>, line: string)
    requires IsUnit(unit) && IsMarker(line)
    ensures IsUnit(unit + [line]) && (unit + [line])[0] == unit[0]
  {
    UnitsSnoc(unit, line);
    assert [unit][..0] + [unit + [line]] == [unit + [line]];
  }

  lemma MarkerStandsAlone(u: Units, line: string)
    requires StandsAlone(u) && IsMarker(line) && u.tail == [] && u.units != []
    ensures StandsAlone(AddLine(u, line))
  {
    var n := |u.units| - 1;
    UnitTakesMarker(u.units[n], line);
    hide UnitsOf, IsUnit;
    assert AddLine(u, line).units == u.units[..n] + [u.units[n] + [line]];
  }

  lemma {:induction false} UnitsStandAlone(body: seq<string>)
    ensures StandsAlone(UnitsOf(body))
  {
    if body != [] {
      var u, line := UnitsOf(body[..|body| - 1]), body[|body| - 1];
      UnitsStandAlone(body[..|body| - 1]);
      if IsKept(line) {
        KeptStandsAlone(u, line);
      } else if IsMarker(line) && u.tail == [] && u.units != [] {
        MarkerStandsAlone(u, line);
      } else {
        UnitsSnoc(u.tail, line);
      }
    }
  }

  ghost predicate NoOther(lines: seq<string>) { forall l :: l in lines ==> !KindOf(l).Other? }

  /** A line read after some earlier units leaves those units alone. */
  lemma AddLineAfter(earlier: seq<seq<string>>, u: Units, line: string)
    requires IsMarker(line) ==> u.tail != [] || u.units != []
    ensures AddLine(Units(earlier + u.units, u.tail), line)
         == Units(earlier + AddLine(u, line).units, AddLine(u, line).tail)
  {
    if IsKept(line) {
      assert earlier + u.units + [u.tail + [line]] == earlier + (u.units + [u.tail + [line]]);
    } else if IsMarker(line) && u.tail == [] {
      var n, all := |u.units| - 1, earlier + u.units;
      assert all[..|all| - 1] == earlier + u.units[..n] && all[|all| - 1] == u.units[n];
    }
  }

  /** Reading a body in two parts, the second not beginning with a marker. */
  lemma {:induction false} UnitsAppend(a: seq<string>, b: seq<string>)
    requires UnitsOf(a).tail == [] && (b != [] ==> !IsMarker(b[0]))
    requires NoOther(b)
    ensures UnitsOf(a + b) == Units(UnitsOf(a).units + UnitsOf(b).units, UnitsOf(b).tail)
  {
    hide UnitsOf, AddLine;
    UnitsOfNothing();
    if b == [] {
      assert a + b == a && UnitsOf(a).units + [] == UnitsOf(a).units;
    } else {
      var init, line := b[..|b| - 1], b[|b| - 1];
      UnitsAppend(a, init);
      assert a + b == a + init + [line] && b == init + [line];
      UnitsSnoc(a + init, line);
      UnitsSnoc(init, line);
      if init != [] { UnitsNonempty(init); }
      AddLineAfter(UnitsOf(a).units, UnitsOf(init), line);
    }
  }

  lemma UnitsOfNothing()
    ensures UnitsOf([]) == Units([], [])
  {
  }

  lemma UnitsNonempty(lines: seq<string>)
    requires lines != [] && NoOther(lines)
    ensures UnitsOf(lines).units != [] || UnitsOf(lines).tail != []
  {
  }

  /** Units put back together read as the same units. */
  lemma {:induction false} UnitsOfFlat(units: seq<seq<string>>)
    requires units != []
    requires forall i :: 0 <= i < |units| ==> IsUnit(units[i]) && NoOther(units[i])
    requires forall i :: 0 < i < |units| ==> units[i] != [] && !IsMarker(units[i][0])
    ensures UnitsOf(Flat(units)) == Units(units, [])
  {
    var init, unit := units[..|units| - 1], units[|units| - 1];
    assert IsUnit(unit) && init + [unit] == units;
    if init == [] {
      assert Flat(units) == unit;
    } else {
      UnitsOfFlat(init);
      UnitsAppend(Flat(init), unit);
    }
  }

  lemma {:induction false} UnitsOfMarked(body: seq<string>)
    ensures UnitsOf(Marked(body)) == UnitsOf(body)
  {
    if body != [] {
      var init, line := body[..|body| - 1], body[|body| - 1];
      UnitsOfMarked(init);
      if !KindOf(line).Other? { UnitsSnoc(Marked(init), line); }
    }
  }

  function UnitLines(u: Units): seq<string> { Flat(u.units) + u.tail }

  lemma AddLineKeepsLines(u: Units, line: string)
    ensures UnitLines(AddLine(u, line)) == UnitLines(u) + if KindOf(line).Other? then [] else [line]
  {
    if IsKept(line) {
      FlatSnoc(u.units, u.tail + [line]);
    } else if IsMarker(line) && u.tail == [] && u.units != [] {
      var n := |u.units| - 1;
      FlatSnoc(u.units[..n], u.units[n] + [line]);
    }
  }

  lemma {:induction false} UnitsKeepLines(body: seq<string>)
    ensures UnitLines(UnitsOf(body)) == Marked(body)
  {
    if body != [] {
      UnitsKeepLines(body[..|body| - 1]);
      AddLineKeepsLines(UnitsOf(body[..|body| - 1]), body[|body| - 1]);
    }
  }

  lemma {:induction false} FlatMembers<T>(parts: seq<seq<T>>, p: seq<T>, x: T)
    requires p in parts && x in p
    ensures x in Flat(parts)
  {
    var n := |parts| - 1;
    if p in parts[..n] {
      FlatMembers(parts[..n], p, x);
    }
  }

  /** There is one unit for each new-side line. */
  lemma {:induction false} OneUnitPerNewLine(body: seq<string>)
    ensures |UnitsOf(body).units| == NewCount(body) && NewCount(UnitsOf(body).tail) == 0
  {
    if body != [] {
      var u, line := UnitsOf(body[..|body| - 1]), body[|body| - 1];
      OneUnitPerNewLine(body[..|body| - 1]);
      CountSnoc(IsKept, u.tail, line);
    }
  }

  // ----- grouping -----

  lemma {:induction false} FlatGrouped<T>(units: seq<T>, newFirst: nat, cuts: set<nat>)
    ensures Flat(Grouped(units, newFirst, cuts)) == units
  {
    if units != [] {
      var n := |units| - 1;
      var before, u := Grouped(units[..n], newFirst, cuts), units[n];
      FlatGrouped(units[..n], newFirst, cuts);
      assert units[..n] + [u] == units;
      GroupedSnoc(units[..n], u, newFirst, cuts);
      hide Grouped, Flat;
      FlatSnoc(before, [u]);
      if before == [] {
        assert [] + [[u]] == [[u]];
      } else {
        FlatLastGrows(before, u);
      }
    }
  }

  lemma FlatLastGrows<T>(before: seq<seq<T>>, u: T)
    requires before != []
    ensures Flat(before[..|before| - 1] + [before[|before| - 1] + [u]]) == Flat(before) + [u]
  {
    hide Flat;
    var k := |before| - 1;
    FlatSnoc(before[..k], before[k]);
    FlatSnoc(before[..k], before[k] + [u]);
    assert before[..k] + [before[k]] == before;
    Assoc(Flat(before[..k]), before[k], [u]);
  }

  lemma {:induction false} FlatOfFlatEach<T>(groups: seq<seq<seq<T>>>)
    ensures Flat(FlatEach(groups)) == Flat(Flat(groups))
  {
    if groups != [] {
      var n := |groups| - 1;
      FlatOfFlatEach(groups[..n]);
      FlatEachSnoc(groups[..n], groups[n]);
      assert groups[..n] + [groups[n]] == groups;
      FlatSnoc(FlatEach(groups[..n]), Flat(groups[n]));
      FlatAppend(Flat(groups[..n]), groups[n]);
    }
  }

  lemma FlatWithTail(parts: seq<seq<string>>, tail: seq<string>)
    ensures Flat(WithTail(parts, tail)) == Flat(parts) + tail
  {
    FlatOne([tail]);
    if parts == [] {
      assert Flat(parts) == [] && [] + tail == tail;
    } else {
      hide Flat;
      var n := |parts| - 1;
      FlatSnoc(parts[..n], parts[n] + tail);
      FlatSnoc(parts[..n], parts[n]);
      assert parts[..n] + [parts[n]] == parts;
      Assoc(Flat(parts[..n]), parts[n], tail);
    }
  }

  /** The pieces' bodies, put end to end, are the original body's marked lines. */
  lemma SplitKeepsBody(body: seq<string>, newFirst: nat, cuts: set<nat>)
    ensures Flat(SplitBodies(body, newFirst, cuts)) == Marked(body)
  {
    var u := UnitsOf(body);
    FlatGrouped(u.units, newFirst, cuts);
    FlatOfFlatEach(Grouped(u.units, newFirst, cuts));
    FlatWithTail(Bodies(u.units, newFirst, cuts), u.tail);
    UnitsKeepLines(body);
  }

  /** Groups regrouped one by one. */
  function GroupEach<T>(groups: seq<seq<T>>, newFirst: nat, cuts: set<nat>): seq<seq<T>> {
    if groups == [] then []
    else
      var n := |groups| - 1;
      GroupEach(groups[..n], newFirst, cuts) + Grouped(groups[n], newFirst + |Flat(groups[..n])|, cuts)
  }

  lemma GroupEachSnoc<T>(groups: seq<seq<T>>, last: seq<T>, newFirst: nat, cuts: set<nat>)
    ensures GroupEach(groups + [last], newFirst, cuts)
         == GroupEach(groups, newFirst, cuts) + Grouped(last, newFirst + |Flat(groups)|, cuts)
  {
    assert (groups + [last])[..|groups|] == groups;
  }

  lemma GroupedOne<T>(u: T, newFirst: nat, cuts: set<nat>)
    ensures Grouped([u], newFirst, cuts) == [[u]]
  {
  }

  /** Grouping at `a` and then each group at `b` is grouping at both. */
  lemma {:induction false} GroupTwice<T>(units: seq<T>, newFirst: nat, a: set<nat>, b: set<nat>)
    ensures GroupEach(Grouped(units, newFirst, a), newFirst, b) == Grouped(units, newFirst, a + b)
  {
    if units != [] {
      var n := |units| - 1;
      assert units[..n] + [units[n]] == units;
      GroupTwice(units[..n], newFirst, a, b);
      GroupTwiceSnoc(units[..n], units[n], newFirst, a, b);
    }
  }

  lemma GroupTwiceSnoc<T>(init: seq<T>, u: T, newFirst: nat, a: set<nat>, b: set<nat>)
    requires GroupEach(Grouped(init, newFirst, a), newFirst, b) == Grouped(init, newFirst, a + b)
    ensures GroupEach(Grouped(init + [u], newFirst, a), newFirst, b) == Grouped(init + [u], newFirst, a + b)
  {
    if init == [] {
      assert init + [u] == [u];
      GroupedOne(u, newFirst, a);
      GroupedOne(u, newFirst, b);
      GroupedOne(u, newFirst, a + b);
      GroupEachSnoc([], [u], newFirst, b);
      assert [] + [[u]] == [[u]];
    } else if newFirst + |init| in a {
      GroupTwiceCut(init, u, newFirst, a, b);
    } else {
      GroupTwiceJoin(init, u, newFirst, a, b);
    }
  }

  lemma GroupTwiceCut<T>(init: seq<T>, u: T, newFirst: nat, a: set<nat>, b: set<nat>)
    requires GroupEach(Grouped(init, newFirst, a), newFirst, b) == Grouped(init, newFirst, a + b)
    requires init != [] && newFirst + |init| in a
    ensures GroupEach(Grouped(init + [u], newFirst, a), newFirst, b) == Grouped(init + [u], newFirst, a + b)
  {
    GroupedSnoc(init, u, newFirst, a);
    GroupedSnoc(init, u, newFirst, a + b);
    FlatGrouped(init, newFirst, a);
    GroupEachSnoc(Grouped(init, newFirst, a), [u], newFirst, b);
    GroupedOne(u, newFirst + |init|, b);
  }

  lemma GroupTwiceJoin<T>(init: seq<T>, u: T, newFirst: nat, a: set<nat>, b: set<nat>)
    requires GroupEach(Grouped(init, newFirst, a), newFirst, b) == Grouped(init, newFirst, a + b)
    requires init != [] && newFirst + |init| !in a
    ensures GroupEach(Grouped(init + [u], newFirst, a), newFirst, b) == Grouped(init + [u], newFirst, a + b)
  {
    hide Grouped, GroupEach, Flat;
    var groups := Grouped(init, newFirst, a);
    var earlier, last := groups[..|groups| - 1], groups[|groups| - 1];
    GroupedSnoc(init, u, newFirst, a);
    GroupedSnoc(init, u, newFirst, a + b);
    FlatGrouped(init, newFirst, a);
    assert earlier + [last] == groups;
    FlatSnoc(earlier, last);
    GroupJoin(earlier, last, u, newFirst, b);
  }

  /** A unit that joins the last group joins or splits off that group's last subgroup. */
  lemma GroupJoin<T>(init: seq<seq<T>>, group: seq<T>, u: T, newFirst: nat, cuts: set<nat>)
    requires group != []
    ensures var all := GroupEach(init + [group], newFirst, cuts);
      && all != []
      && GroupEach(init + [group + [u]], newFirst, cuts) ==
         if newFirst + |Flat(init)| + |group| in cuts then all + [[u]]
         else all[..|all| - 1] + [all[|all| - 1] + [u]]
  {
    hide Grouped, GroupEach, Flat;
    var first := newFirst + |Flat(init)|;
    GroupEachSnoc(init, group, newFirst, cuts);
    GroupEachSnoc(init, group + [u], newFirst, cuts);
    GroupedSnoc(group, u, first, cuts);
    AppendToLast(GroupEach(init, newFirst, cuts), Grouped(group, first, cuts), u);
  }

  lemma AppendToLast<T>(before: seq<seq<T>>, last: seq<seq<T>>, u: T)
    requires last != []
    ensures var all := before + last;
      && before + (last + [[u]]) == all + [[u]]
      && before + (last[..|last| - 1] + [last[|last| - 1] + [u]]) == all[..|all| - 1] + [all[|all| - 1] + [u]]
  {
    var all := before + last;
    assert all[..|all| - 1] == before + last[..|last| - 1];
  }
}
