/** Reading a printed patch back. */
module Reparse {
  import opened Text
  import opened Patch
  import opened HunkSplit

  /** The lines of one printed hunk: a header first and nowhere else, each on one line. */
  ghost predicate IsPrinted(group: seq<string>) {
    && |group| > 0 && IsHeader(group[0])
    && (forall i :: 0 < i < |group| ==> !IsHeader(group[i]))
    && (forall l :: l in group ==> '\n' !in l)
  }

  function Printed(groups: seq<seq<string>>): seq<string> {
    seq(|groups|, i requires 0 <= i < |groups| => Join(groups[i], '\n'))
  }

  lemma GroupsSnoc(lines: seq<string>, line: string)
    ensures var before := Groups(lines);
      Groups(lines + [line]) ==
        if IsHeader(line) then before + [[line]]
        else if before == [] then []
        else before[..|before| - 1] + [before[|before| - 1] + [line]]
  {
    assert (lines + [line])[..|lines|] == lines;
  }

  lemma {:induction false} GroupsExtend(lines: seq<string>, more: seq<string>)
    requires Groups(lines) != []
    requires forall l :: l in more ==> !IsHeader(l)
    ensures var before := Groups(lines);
      Groups(lines + more) == before[..|before| - 1] + [before[|before| - 1] + more]
  {
    hide Groups;
    var before := Groups(lines);
    var n := |before| - 1;
    if more == [] {
      assert lines + more == lines && before[n] + more == before[n];
    } else {
      var init, l := more[..|more| - 1], more[|more| - 1];
      assert more == init + [l];
      forall m | m in init ensures m in more {}
      GroupsExtend(lines, init);
      GroupsSnoc(lines + init, l);
      assert lines + more == lines + init + [l] && before[n] + more == before[n] + init + [l];
    }
  }

  lemma GroupsPrinted(lines: seq<string>, group: seq<string>)
    requires IsPrinted(group)
    ensures Groups(lines + group) == Groups(lines) + [group]
  {
    var first := [group[0]];
    assert (lines + first)[..|lines|] == lines;
    assert Groups(lines + first) == Groups(lines) + [first];
    forall l | l in group[1..] ensures !IsHeader(l) {
      var i :| 0 < i < |group| && group[i] == l;
    }
    GroupsExtend(lines + first, group[1..]);
    assert lines + first + group[1..] == lines + group;
    assert first + group[1..] == group;
    assert (Groups(lines) + [first])[..|Groups(lines)|] == Groups(lines);
  }

  lemma NothingPrinted(groups: seq<seq<string>>)
    requires groups == []
    ensures Groups(Flat(groups)) == groups
  {
  }

  lemma {:induction false} GroupsOfFlat(groups: seq<seq<string>>)
    requires forall g :: g in groups ==> IsPrinted(g)
    ensures Groups(Flat(groups)) == groups
  {
    hide Flat, Groups, IsPrinted;
    if groups == [] {
      NothingPrinted(groups);
    } else {
      var init, last := groups[..|groups| - 1], groups[|groups| - 1];
      assert init + [last] == groups && last in groups;
      forall g | g in init ensures g in groups {}
      GroupsOfFlat(init);
      FlatSnoc(init, last);
      GroupsPrinted(Flat(init), last);
    }
  }

  lemma PrintedLines(group: seq<string>)
    requires IsPrinted(group)
    ensures |group| > 0 && forall l :: l in group ==> '\n' !in l
  {
  }

  lemma JoinOne(part: string, sep: char)
    ensures Join([part], sep) == part
  {
  }

  lemma {:induction false} SplitOfPrinted(groups: seq<seq<string>>)
    requires groups != [] && forall g :: g in groups ==> IsPrinted(g)
    ensures Split(Join(Printed(groups), '\n'), '\n') == Flat(groups)
  {
    hide Split, Join, Flat, IsPrinted;
    var init, last := groups[..|groups| - 1], groups[|groups| - 1];
    var text := Join(last, '\n');
    assert last in groups && groups == init + [last];
    PrintedLines(last);
    SplitJoin(last, '\n');
    FlatSnoc(init, last);
    if init == [] {
      FlatNothing(init);
      JoinOne(text, '\n');
      assert Printed(groups) == [text] && [] + last == last;
    } else {
      forall g | g in init ensures g in groups {}
      SplitOfPrinted(init);
      assert Printed(groups) == Printed(init) + [text];
      JoinAppend(Printed(init), '\n', [text]);
      JoinOne(text, '\n');
      SplitAtSep(Join(Printed(init), '\n'), '\n', text);
    }
  }

  /** Parsing printed hunks returns them, numbered in order. */
  lemma ParsePrinted(groups: seq<seq<string>>)
    requires groups != [] && forall g :: g in groups ==> |g| > 0 && IsPrinted(g)
    ensures ParsedHunks(Join(Printed(groups), '\n')) == HunksOf(groups)
  {
    SplitOfPrinted(groups);
    GroupsOfFlat(groups);
  }

  lemma GroupHeader(groups: seq<seq<string>>, i: nat)
    requires i < |groups| && (forall g :: g in groups ==> |g| > 0) && forall l :: l in groups[i] ==> '\n' !in l
    ensures HunkHeader(HunksOf(groups)[i]) == groups[i][0] && HunkBody(HunksOf(groups)[i]) == groups[i][1..]
  {
    SplitJoin(groups[i], '\n');
  }

  lemma {:induction false} GroupsOfOneLiners(lines: seq<string>)
    requires forall l :: l in lines ==> '\n' !in l
    ensures forall i :: 0 <= i < |Groups(lines)| ==> forall l :: l in Groups(lines)[i] ==> '\n' !in l
  {
    if lines != [] { GroupsOfOneLiners(lines[..|lines| - 1]); }
  }
}
