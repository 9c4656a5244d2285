/** A brand-new file rendered as an all-additions patch (`patch_for_new_file`, src/domain/patch.rs). */
module NewFile {
  import opened Text
  import opened Patch
  import opened HunkSplit
  import opened HunkLaws
  import opened SplitLaws
  import opened HunkApply
  import opened Reparse
  import opened Candidates

  const CHUNK_LINES := 80

  function ChunkCount(n: nat): (count: nat)
    ensures (count - 1) * CHUNK_LINES < n <= count * CHUNK_LINES || n == count == 0
  {
    (n + CHUNK_LINES - 1) / CHUNK_LINES
  }

  function ChunkEnd(n: nat, i: nat): nat { if (i + 1) * CHUNK_LINES <= n then (i + 1) * CHUNK_LINES else n }

  function Chunk(lines: seq<string>, i: nat): (chunk: seq<string>)
    requires i < ChunkCount(|lines|)
    ensures 0 < |chunk| <= CHUNK_LINES
  {
    lines[i * CHUNK_LINES..ChunkEnd(|lines|, i)]
  }

  function Added(lines: seq<string>): (r: seq<string>)
    ensures |r| == |lines| && forall i :: 0 <= i < |lines| ==> r[i] == ['+'] + lines[i]
  {
    seq(|lines|, i requires 0 <= i < |lines| => ['+'] + lines[i])
  }

  /** Lines without their markers. */
  function Stripped(body: seq<string>): (r: seq<string>)
    ensures |r| == |body|
  {
    seq(|body|, i requires 0 <= i < |body| => if body[i] == "" then "" else body[i][1..])
  }

  /** One chunk as the lines of a hunk. */
  function ChunkGroup(lines: seq<string>, i: nat): seq<string>
    requires i < ChunkCount(|lines|)
  {
    var chunk := Chunk(lines, i);
    [Header(Ranges(0, 0, i * CHUNK_LINES + 1, |chunk|))] + Added(chunk)
  }

  function ChunkGroups(lines: seq<string>): seq<seq<string>> {
    seq(ChunkCount(|lines|), i requires 0 <= i < ChunkCount(|lines|) => ChunkGroup(lines, i))
  }

  function NewFilePatch(source: string): string {
    Join(Printed(ChunkGroups(Split(source, '\n'))), '\n')
  }

  lemma JoinSnoc(parts: seq<string>, last: string)
    requires parts != []
    ensures Join(parts + [last], '\n') == Join(parts, '\n') + ['\n'] + last
  {
    JoinAppend(parts, '\n', [last]);
  }

  lemma JoinOnly(line: string)
    ensures Join([line], '\n') == line
  {
  }

  /** The text of one hunk, appended line by line to its header. */
  method HunkText(lines: seq<string>, index: nat) returns (out: string)
    requires index < ChunkCount(|lines|)
    ensures out == Join(ChunkGroup(lines, index), '\n')
  {
    hide Join, Header, Added;
    var chunk := Chunk(lines, index);
    out := Header(Ranges(0, 0, index * CHUNK_LINES + 1, |chunk|));
    ghost var group := [out] + Added(chunk);
    assert group == ChunkGroup(lines, index) && group[..1] == [out];
    JoinOnly(out);
    for j := 0 to |chunk|
      invariant out == Join(group[..j + 1], '\n')
    {
      assert group[..j + 2] == group[..j + 1] + [['+'] + chunk[j]];
      JoinSnoc(group[..j + 1], ['+'] + chunk[j]);
      out := out + ['\n'] + (['+'] + chunk[j]);
    }
    assert group[..|chunk| + 1] == group;
  }

  method PatchForNewFile(source: string) returns (patch: string)
    ensures patch == NewFilePatch(source)
  {
    hide ChunkGroup, Join, ChunkCount, Split;
    var lines := Split(source, '\n');
    var hunks: seq<string> := [];
    for index := 0 to ChunkCount(|lines|)
      invariant |hunks| == index
      invariant forall k :: 0 <= k < index ==> hunks[k] == Join(ChunkGroup(lines, k), '\n')
    {
      var out := HunkText(lines, index);
      hunks := hunks + [out];
    }
    assert hunks == Printed(ChunkGroups(lines));
    patch := Join(hunks, '\n');
  }

  // ----- what parsing the patch gives -----

  lemma {:induction false} AddedCounts(lines: seq<string>)
    ensures NewCount(Added(lines)) == |lines| && OldCount(Added(lines)) == 0 && NoOther(Added(lines))
  {
    if lines != [] {
      var n := |lines| - 1;
      AddedCounts(lines[..n]);
      assert Added(lines)[..n] == Added(lines[..n]);
      assert Added(lines)[n][0] == '+';
    }
    forall l | l in Added(lines) ensures !KindOf(l).Other? {
    }
  }

  /** Parsing the patch gives back the chunks, with the headers that were printed. */
  lemma ParsesToChunks(source: string)
    requires |Split(source, '\n')| <= USIZE_MAX
    ensures var lines, hunks := Split(source, '\n'), ParsedHunks(NewFilePatch(source));
      && |hunks| == ChunkCount(|lines|) > 0
      && forall i :: 0 <= i < |hunks| ==>
           && hunks[i].startLine == i * CHUNK_LINES + 1 && HunkBody(hunks[i]) == Added(Chunk(lines, i))
           && HunkRanges(HunkHeader(hunks[i])) == Some(Ranges(0, 0, i * CHUNK_LINES + 1, |Chunk(lines, i)|))
  {
    hide Split, Header, Dec, IsPrinted, NewStart, HunkRanges, ChunkGroup, HunkHeader, HunkBody, Printed, Groups;
    var lines := Split(source, '\n');
    var groups := ChunkGroups(lines);
    SplitPartsLackSep(source, '\n');
    forall i | 0 <= i < |groups|
      ensures |groups[i]| > 0 && IsPrinted(groups[i]) && groups[i][1..] == Added(Chunk(lines, i))
      ensures NewStart(groups[i][0]) == i * CHUNK_LINES + 1 && OneLiners(groups[i])
      ensures HunkRanges(groups[i][0]) == Some(Ranges(0, 0, i * CHUNK_LINES + 1, |Chunk(lines, i)|))
    {
      ChunkIsPrinted(lines, i);
    }
    ParsePrinted(groups);
    forall i | 0 <= i < |groups|
      ensures HunkHeader(HunksOf(groups)[i]) == groups[i][0] && HunkBody(HunksOf(groups)[i]) == Added(Chunk(lines, i))
    {
      GroupHeader(groups, i);
    }
  }

  lemma ChunkIsPrinted(lines: seq<string>, i: nat)
    requires i < ChunkCount(|lines|) && |lines| <= USIZE_MAX && OneLiners(lines)
    ensures var group := ChunkGroup(lines, i);
      && |group| > 0 && IsPrinted(group) && group[1..] == Added(Chunk(lines, i))
      && (forall l :: l in group ==> '\n' !in l)
      && NewStart(group[0]) == i * CHUNK_LINES + 1
      && HunkRanges(group[0]) == Some(Ranges(0, 0, i * CHUNK_LINES + 1, |Chunk(lines, i)|))
  {
    var chunk := Chunk(lines, i);
    var r := Ranges(0, 0, i * CHUNK_LINES + 1, |chunk|);
    HeaderRoundTrip(r);
    HeaderIsOneLine(r);
    hide Header, HunkRanges, NewStart;
    var group := ChunkGroup(lines, i);
    forall k | 0 < k < |group| ensures !IsHeader(group[k]) && '\n' !in group[k] {
      assert group[k] == ['+'] + chunk[k - 1] && chunk[k - 1] in lines;
    }
    forall l | l in group ensures '\n' !in l {
      var k :| 0 <= k < |group| && group[k] == l;
    }
  }

  lemma StrippedAdded(lines: seq<string>)
    ensures Stripped(Added(lines)) == lines
  {
    forall i | 0 <= i < |lines| ensures Stripped(Added(lines))[i] == lines[i] {
    }
  }

  /** The added text of the hunks, in order. */
  function AddedText(hunks: seq<Hunk>): seq<string> {
    if hunks == [] then [] else AddedText(hunks[..|hunks| - 1]) + Stripped(HunkBody(hunks[|hunks| - 1]))
  }

  /** A hunk that adds the `i`th chunk. */
  ghost predicate AddsChunk(h: Hunk, lines: seq<string>, i: nat)
    requires i < ChunkCount(|lines|)
  {
    && h.startLine == i * CHUNK_LINES + 1 && HunkBody(h) == Added(Chunk(lines, i))
    && HunkRanges(HunkHeader(h)) == Some(Ranges(0, 0, i * CHUNK_LINES + 1, |Chunk(lines, i)|))
  }

  ghost predicate AddChunks(hunks: seq<Hunk>, lines: seq<string>) {
    |hunks| <= ChunkCount(|lines|) && forall i :: 0 <= i < |hunks| ==> AddsChunk(hunks[i], lines, i)
  }

  lemma AddChunksInit(hunks: seq<Hunk>, lines: seq<string>)
    requires AddChunks(hunks, lines) && hunks != []
    ensures AddChunks(hunks[..|hunks| - 1], lines) && AddsChunk(hunks[|hunks| - 1], lines, |hunks| - 1)
  {
    hide AddsChunk;
  }

  /** The lines the first `k` chunks hold. */
  function ChunkPrefix(n: nat, k: nat): nat { if k == 0 then 0 else ChunkEnd(n, k - 1) }

  lemma ChunkFollows(lines: seq<string>, k: nat)
    requires k < ChunkCount(|lines|)
    ensures ChunkPrefix(|lines|, k) == k * CHUNK_LINES <= ChunkPrefix(|lines|, k + 1) <= |lines|
    ensures lines[..ChunkPrefix(|lines|, k + 1)] == lines[..ChunkPrefix(|lines|, k)] + Chunk(lines, k)
    ensures |Chunk(lines, k)| == ChunkPrefix(|lines|, k + 1) - ChunkPrefix(|lines|, k)
  {
  }

  /** The hunks' added text is the source's lines so far, and so are their new lines. */
  lemma {:induction false} ChunksHoldText(hunks: seq<Hunk>, lines: seq<string>)
    requires AddChunks(hunks, lines)
    ensures ChunkPrefix(|lines|, |hunks|) <= |lines|
    ensures AddedText(hunks) == lines[..ChunkPrefix(|lines|, |hunks|)]
    ensures LinesOf(hunks) == Interval(1, ChunkPrefix(|lines|, |hunks|))
  {
    if hunks != [] {
      var n := |hunks| - 1;
      AddChunksInit(hunks, lines);
      assert HunkBody(hunks[n]) == Added(Chunk(lines, n));
      hide HunkBody, HunkHeader, HunkRanges, AddChunks;
      ChunksHoldText(hunks[..n], lines);
      ChunkFollows(lines, n);
      StrippedAdded(Chunk(lines, n));
      AddedCounts(Chunk(lines, n));
    }
  }

  function AsLines(texts: seq<string>): (r: seq<Line>)
    ensures |r| == |texts| && forall i :: 0 <= i < |r| ==> r[i] == Line(texts[i], true)
  {
    seq(|texts|, i requires 0 <= i < |texts| => Line(texts[i], true))
  }

  lemma {:induction false} SideOfAdded(lines: seq<string>)
    ensures Side(Added(lines), false) == AsLines(lines) && Side(Added(lines), true) == []
  {
    if lines != [] {
      var n := |lines| - 1;
      SideOfAdded(lines[..n]);
      assert Added(lines)[..n] == Added(lines[..n]);
      assert Added(lines)[n] == ['+'] + lines[n] && Added(lines)[n][1..] == lines[n];
      assert AsLines(lines) == AsLines(lines[..n]) + [Line(lines[n], true)];
    } else {
      assert AsLines(lines) == [];
    }
  }

  function ChunkEdit(lines: seq<string>, i: nat): Edit
    requires i < ChunkCount(|lines|)
  {
    Edit(0, i * CHUNK_LINES, [], AsLines(Chunk(lines, i)))
  }

  /** A hunk's edit from its ranges and its marked body. */
  lemma EditIs(h: Hunk, r: Ranges, body: seq<string>)
    requires HunkRanges(HunkHeader(h)) == Some(r) && Marked(HunkBody(h)) == body
    requires First(r.oldStart, r.oldLen) > 0 && First(r.newStart, r.newLen) > 0
    requires OldCount(body) == r.oldLen && NewCount(body) == r.newLen
    ensures EditOf(h) == Some(BodyEdit(First(r.oldStart, r.oldLen), First(r.newStart, r.newLen), body))
  {
    hide HunkRanges, HunkHeader, HunkBody, Marked, OldCount, NewCount, BodyEdit;
  }

  lemma EditOfChunk(h: Hunk, lines: seq<string>, i: nat)
    requires i < ChunkCount(|lines|) && AddsChunk(h, lines, i)
    ensures EditOf(h) == Some(ChunkEdit(lines, i))
  {
    hide HunkBody, HunkHeader, HunkRanges, Added, Marked, Side, OldCount, NewCount, Chunk, AsLines, EditOf;
    var chunk := Chunk(lines, i);
    AddedCounts(chunk);
    MarkedSame(Added(chunk));
    SideOfAdded(chunk);
    EditIs(h, Ranges(0, 0, i * CHUNK_LINES + 1, |chunk|), Added(chunk));
  }

  function ChunkEdits(lines: seq<string>, count: nat): (edits: seq<Edit>)
    requires count <= ChunkCount(|lines|)
    ensures |edits| == count && forall i :: 0 <= i < count ==> edits[i] == ChunkEdit(lines, i)
  {
    seq(count, i requires 0 <= i < count => ChunkEdit(lines, i))
  }

  lemma OneChunkMore(lines: seq<string>, n: nat)
    requires n < ChunkCount(|lines|)
    ensures ChunkEdits(lines, n + 1) == ChunkEdits(lines, n) + [ChunkEdit(lines, n)]
  {
    hide ChunkEdit;
  }

  lemma {:induction false} EditsOfChunks(hunks: seq<Hunk>, lines: seq<string>)
    requires AddChunks(hunks, lines)
    ensures EditsOf(hunks) == Some(ChunkEdits(lines, |hunks|))
  {
    if hunks != [] {
      var n := |hunks| - 1;
      AddChunksInit(hunks, lines);
      hide AddChunks, AddsChunk, EditOf, ChunkEdit, ChunkEdits;
      EditsOfChunks(hunks[..n], lines);
      EditOfChunk(hunks[n], lines, n);
      OneChunkMore(lines, n);
    }
  }

  lemma ApplyNothing(at: nat)
    ensures ApplyFrom([], 0, at, []) == Some([])
  {
  }

  lemma NoLines()
    ensures AsLines([]) == []
  {
  }

  lemma AsLinesSplit(lines: seq<string>, at: nat, next: nat)
    requires at <= next <= |lines|
    ensures AsLines(lines[at..]) == AsLines(lines[at..next]) + AsLines(lines[next..])
    ensures |AsLines(lines[at..next])| == next - at
  {
  }

  /** From chunk `k` on, the edits add the rest of the file. */
  lemma {:induction false} ApplyChunks(lines: seq<string>, k: nat)
    requires k <= ChunkCount(|lines|)
    ensures ChunkPrefix(|lines|, k) <= |lines|
    ensures ApplyFrom([], 0, ChunkPrefix(|lines|, k), ChunkEdits(lines, ChunkCount(|lines|))[k..])
         == Some(AsLines(lines[ChunkPrefix(|lines|, k)..]))
    decreases ChunkCount(|lines|) - k
  {
    hide ApplyFrom, AsLines, Chunk;
    var n, edits := ChunkCount(|lines|), ChunkEdits(lines, ChunkCount(|lines|));
    var at := ChunkPrefix(|lines|, k);
    if k == n {
      ApplyNothing(at);
      assert at == |lines| && edits[k..] == [] && lines[at..] == [];
      assert AsLines([]) == [] by { NoLines(); }
    } else {
      ApplyChunks(lines, k + 1);
      ChunkFollows(lines, k);
      var next, rest := ChunkPrefix(|lines|, k + 1), edits[k..];
      assert rest[1..] == edits[k + 1..] && rest[0] == ChunkEdit(lines, k);
      hide ChunkPrefix, ChunkEdits, ChunkCount;
      AsLinesSplit(lines, at, next);
      AddFirst(rest, at, next);
    }
  }

  /** Adding lines at the end of an empty file. */
  lemma AddFirst(edits: seq<Edit>, at: nat, next: nat)
    requires edits != [] && edits[0].oldAt == 0 && edits[0].before == [] && edits[0].newAt == at &&
      at + |edits[0].after| == next
    requires ApplyFrom([], 0, next, edits[1..]).Some?
    ensures ApplyFrom([], 0, at, edits) == Some(edits[0].after + ApplyFrom([], 0, next, edits[1..]).value)
  {
    var none: seq<Line> := [];
    assert none[0..0] == [] && none[0..] == [];
    assert Matches(none, 0, at, edits[0]);
    assert none + edits[0].after == edits[0].after;
  }

  lemma AllChunks(hunks: seq<Hunk>, lines: seq<string>)
    requires |hunks| == ChunkCount(|lines|) > 0
    requires forall i :: 0 <= i < |hunks| ==> AddsChunk(hunks[i], lines, i)
    ensures AddChunks(hunks, lines) && ChunkPrefix(|lines|, 0) == 0 && ChunkPrefix(|lines|, |hunks|) == |lines|
  {
    hide AddsChunk;
  }

  /**
   * For every source text: the hunks of its patch start 80 lines apart from line 1; their added
   * lines rejoin to exactly the text; the lines a comment can target are all its lines; and
   * applying the patch to an empty file gives the source's lines.
   */
  lemma NewFileRoundTrip(source: string)
    requires |Split(source, '\n')| <= USIZE_MAX
    ensures var lines, hunks := Split(source, '\n'), ParsedHunks(NewFilePatch(source));
      && |hunks| == ChunkCount(|lines|)
      && (forall i :: 0 <= i < |hunks| ==> hunks[i].startLine == i * CHUNK_LINES + 1)
      && Join(AddedText(hunks), '\n') == source
      && Commentable(NewFilePatch(source)) == Interval(1, |lines|)
      && Apply([], hunks) == Some(AsLines(lines))
  {
    hide Split, NewFilePatch, ParsedHunks, HunkHeader, HunkBody, HunkRanges, AddChunks, ApplyFrom, LinesOf, AddedText,
      ChunkEdits, EditsOf, ChunkPrefix;
    var lines, hunks := Split(source, '\n'), ParsedHunks(NewFilePatch(source));
    ParsesToChunks(source);
    JoinSplit(source, '\n');
    AllChunks(hunks, lines);
    assert lines[..|lines|] == lines && lines[0..] == lines;
    ChunksHoldText(hunks, lines);
    EditsOfChunks(hunks, lines);
    ApplyChunks(lines, 0);
    var edits := ChunkEdits(lines, |hunks|);
    assert edits[0..] == edits;
  }
}
