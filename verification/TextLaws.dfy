/** What the text functions shared by the components do, in terms of the text itself. */
module TextLaws {
  import opened Text

  // ----- lines -----

  lemma SplitFirstLine(line: string, rest: string)
    requires '\n' !in line
    ensures Split(line + "\n" + rest, '\n') == [line] + Split(rest, '\n')
  {
    SplitAtSep(line, '\n', rest);
    SplitWithoutSep(line, '\n');
    assert line + "\n" + rest == line + ['\n'] + rest;
  }

  function Ended(parts: seq<string>): (r: seq<string>)
    ensures |r| == |parts|
  {
    seq(|parts|, i requires 0 <= i < |parts| => StripCr(parts[i]))
  }

  lemma LinesAre(init: seq<string>, last: string)
    ensures LinesOfParts(init + [last]) == Ended(init) + if last == "" then [] else [last]
  {
    hide StripCr;
    var parts := init + [last];
    assert parts[|init|] == last && forall i :: 0 <= i < |init| ==> parts[i] == init[i];
  }

  lemma FirstLineOfParts(line: string, parts: seq<string>)
    requires |parts| > 0
    ensures LinesOfParts([line] + parts) == [StripCr(line)] + LinesOfParts(parts)
  {
    hide StripCr, LinesOfParts;
    var init, last := parts[..|parts| - 1], parts[|parts| - 1];
    LinesAre(init, last);
    LinesAre([line] + init, last);
    assert parts == init + [last] && [line] + parts == [line] + init + [last];
    assert Ended([line] + init) == [StripCr(line)] + Ended(init);
  }

  /** A line ends at its newline, and loses one carriage return before it. */
  lemma FirstLine(line: string, rest: string)
    requires '\n' !in line && (line == "" || line[|line| - 1] != '\r')
    ensures Lines(line + "\n" + rest) == [line] + Lines(rest)
    ensures Lines(line + "\r" + "\n" + rest) == [line] + Lines(rest)
  {
    var cr := line + "\r";
    SplitFirstLine(line, rest);
    SplitFirstLine(cr, rest);
    hide Split;
    FirstLineOfParts(line, Split(rest, '\n'));
    FirstLineOfParts(cr, Split(rest, '\n'));
    assert cr[..|cr| - 1] == line;
  }

  /** The last line needs no newline; what follows the last newline is no line when it is empty. */
  lemma LastLine(line: string)
    requires '\n' !in line
    ensures Lines(line) == if line == "" then [] else [line]
  {
    SplitWithoutSep(line, '\n');
  }

  // ----- the order of texts -----

  /** The first characters that differ decide; of a text and its beginning, the beginning comes first. */
  lemma {:induction false} OrderReads(common: string, a: string, b: string)
    requires a == "" || b == "" || a[0] != b[0]
    ensures TextAtMost(common + a, common + b) <==> a == "" || (b != "" && a[0] as int < b[0] as int)
    decreases |common|
  {
    if common == "" {
      assert common + a == a && common + b == b;
    } else {
      OrderReads(common[1..], a, b);
      assert (common + a)[1..] == common[1..] + a && (common + b)[1..] == common[1..] + b;
    }
  }
}
