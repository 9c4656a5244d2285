/**
 * The length-prefixed stream of `git cat-file --batch`, as `read_blob_batch` parses it
 * (src/adapters/git.rs:1015-1058).
 */
module Batch {
  import opened Text
  import opened Utf8

  const NEWLINE: byte := 10
  const NUL: byte := 0

  /** ` blob ` */
  const BLOB_WORD: seq<byte> := [32, 98, 108, 111, 98, 32]

  /** A requested file: its path, the object name, and the size the tree gave. */
  datatype Blob = Blob(path: string, name: seq<byte>, size: nat)

  datatype SourceFile = SourceFile(path: string, content: seq<byte>)

  datatype Error =
    | MissingHeader | HeaderNotText | Mismatch | SizeOverflow | Truncated
    | NotText | Binary | MissingTerminator | Trailing

  datatype Result<+T> = Ok(value: T) | Err(error: Error)

  function DecBytes(n: nat): (r: seq<byte>)
    ensures |r| == |Dec(n)| && IsAscii(r) && NEWLINE !in r
  {
    var d := Dec(n);
    seq(|d|, k requires 0 <= k < |d| => assert IsDigit(d[k]); d[k] as int)
  }

  /** `format!("{blob} blob {size}")` */
  function Header(b: Blob): seq<byte> { b.name + BLOB_WORD + DecBytes(b.size) }

  function Position(out: seq<byte>, from: nat): (p: Option<nat>)
    requires from <= |out|
    ensures p.Some? ==> from <= p.value < |out| && out[p.value] == NEWLINE
    ensures forall k :: from <= k < (if p.Some? then p.value else |out|) ==> out[k] != NEWLINE
    decreases |out| - from
  {
    if from == |out| then None
    else if out[from] == NEWLINE then Some(from)
    else Position(out, from + 1)
  }

  /** One blob's content, and where the next blob's header begins. */
  datatype Taken = Taken(content: seq<byte>, next: nat)

  /** One turn of the loop: the content, and where the next header begins. */
  function ReadBlob(out: seq<byte>, b: Blob, cursor: nat): (r: Result<Taken>)
    requires cursor <= |out|
    ensures r.Ok? ==> cursor < r.value.next <= |out|
  {
    var lineEnd := Position(out, cursor);
    if lineEnd.None? then Err(MissingHeader)
    else if !IsUtf8(out[cursor..lineEnd.value]) then Err(HeaderNotText)
    else if out[cursor..lineEnd.value] != Header(b) then Err(Mismatch)
    else
      var start := lineEnd.value + 1;
      var end := start + b.size;
      if end > USIZE_MAX then Err(SizeOverflow)
      else if end > |out| then Err(Truncated)
      else if !IsUtf8(out[start..end]) then Err(NotText)
      else if NUL in out[start..end] then Err(Binary)
      else if !(end < |out| && out[end] == NEWLINE) then Err(MissingTerminator)
      else Ok(Taken(out[start..end], end + 1))
  }

  function ReadFrom(out: seq<byte>, blobs: seq<Blob>, cursor: nat): Result<seq<SourceFile>>
    requires cursor <= |out|
  {
    if |blobs| == 0 then (if cursor == |out| then Ok([]) else Err(Trailing))
    else match ReadBlob(out, blobs[0], cursor)
      case Err(e) => Err(e)
      case Ok(Taken(content, next)) =>
        match ReadFrom(out, blobs[1..], next)
        case Err(e) => Err(e)
        case Ok(files) => Ok([SourceFile(blobs[0].path, content)] + files)
  }

  function Prefixed(files: seq<SourceFile>, r: Result<seq<SourceFile>>): Result<seq<SourceFile>> {
    match r case Err(e) => Err(e) case Ok(rest) => Ok(files + rest)
  }

  method FindNewline(out: seq<byte>, from: nat) returns (p: Option<nat>)
    requires from <= |out|
    ensures p == Position(out, from)
  {
    var i := from;
    while i < |out|
      invariant from <= i <= |out| && Position(out, i) == Position(out, from)
    {
      if out[i] == NEWLINE { return Some(i); }
      i := i + 1;
    }
    p := None;
  }

  method TakeBlob(out: seq<byte>, b: Blob, from: nat) returns (r: Result<Taken>)
    requires from <= |out|
    ensures r == ReadBlob(out, b, from)
  {
    var lineEnd := FindNewline(out, from);
    if lineEnd.None? { return Err(MissingHeader); }
    var header := out[from..lineEnd.value];
    if !IsUtf8(header) { return Err(HeaderNotText); }
    if header != Header(b) { return Err(Mismatch); }
    var cursor := lineEnd.value + 1;
    var end := cursor + b.size;
    if end > USIZE_MAX { return Err(SizeOverflow); }
    if end > |out| { return Err(Truncated); }
    var content := out[cursor..end];
    if !IsUtf8(content) { return Err(NotText); }
    if NUL in content { return Err(Binary); }
    if !(end < |out| && out[end] == NEWLINE) { return Err(MissingTerminator); }
    r := Ok(Taken(content, end + 1));
  }

  method ReadBlobBatch(out: seq<byte>, blobs: seq<Blob>) returns (result: Result<seq<SourceFile>>)
    ensures result == ReadFrom(out, blobs, 0)
  {
    var cursor: nat := 0;
    var files: seq<SourceFile> := [];
    var k := 0;
    PrefixedNone(ReadFrom(out, blobs, 0));
    assert blobs[0..] == blobs;
    while k < |blobs|
      invariant 0 <= k <= |blobs| && cursor <= |out|
      invariant Prefixed(files, ReadFrom(out, blobs[k..], cursor)) == ReadFrom(out, blobs, 0)
    {
      assert blobs[k..][0] == blobs[k] && blobs[k..][1..] == blobs[k + 1..];
      var taken := TakeBlob(out, blobs[k], cursor);
      if taken.Err? { return Err(taken.error); }
      var file := SourceFile(blobs[k].path, taken.value.content);
      cursor := taken.value.next;
      PrefixedSnoc(files, file, ReadFrom(out, blobs[k + 1..], cursor));
      files := files + [file];
      k := k + 1;
    }
    assert blobs[k..] == [] && files + [] == files;
    if cursor != |out| { return Err(Trailing); }
    result := Ok(files);
  }

  lemma PrefixedNone(r: Result<seq<SourceFile>>)
    ensures Prefixed([], r) == r
  {
    if r.Ok? { assert [] + r.value == r.value; }
  }

  lemma PrefixedSnoc(files: seq<SourceFile>, f: SourceFile, r: Result<seq<SourceFile>>)
    ensures Prefixed(files, Prefixed([f], r)) == Prefixed(files + [f], r)
  {
    if r.Ok? { assert files + ([f] + r.value) == files + [f] + r.value; }
  }

  // ----- the format -----

  /** What the stream holds for each request: header, newline, content, newline. */
  function Encode(blobs: seq<Blob>, contents: seq<seq<byte>>): seq<byte>
    requires |blobs| == |contents|
  {
    if |blobs| == 0 then []
    else Header(blobs[0]) + [NEWLINE] + contents[0] + [NEWLINE] + Encode(blobs[1..], contents[1..])
  }

  /** Text of the stated size without NUL, requested by a name that is text on one line. */
  predicate IsAnswer(b: Blob, content: seq<byte>) {
    && IsUtf8(b.name) && NEWLINE !in b.name
    && |content| == b.size && IsUtf8(content) && NUL !in content
  }

  predicate AreAnswers(blobs: seq<Blob>, contents: seq<seq<byte>>) {
    |blobs| == |contents| && forall k :: 0 <= k < |blobs| ==> IsAnswer(blobs[k], contents[k])
  }

  function Files(blobs: seq<Blob>, contents: seq<seq<byte>>): seq<SourceFile>
    requires |blobs| == |contents|
  {
    seq(|blobs|, k requires 0 <= k < |blobs| => SourceFile(blobs[k].path, contents[k]))
  }

  lemma CutBeforeAscii(a: seq<byte>, b: seq<byte>)
    requires IsUtf8(a + b) && |b| > 0 && b[0] < 0x80
    ensures IsUtf8(a)
  {
    hide IsUtf8;
    assert (a + b)[|a|] == b[0] && (a + b)[..|a|] == a;
    Utf8Cut(a + b, |a|);
  }

  lemma HeaderIsText(b: Blob)
    ensures IsUtf8(Header(b)) <==> IsUtf8(b.name)
    ensures NEWLINE in Header(b) <==> NEWLINE in b.name
  {
    var tail := BLOB_WORD + DecBytes(b.size);
    assert Header(b) == b.name + tail && tail[0] == 32;
    assert NEWLINE !in tail && IsAscii(tail);
    hide Header, DecBytes, IsUtf8;
    AsciiIsUtf8(tail);
    if IsUtf8(b.name) { Utf8Append(b.name, tail); }
    if IsUtf8(b.name + tail) { CutBeforeAscii(b.name, tail); }
  }

  lemma PositionAfter(out: seq<byte>, cursor: nat, line: seq<byte>)
    requires cursor + |line| < |out| && out[cursor..cursor + |line|] == line && out[cursor + |line|] == NEWLINE
    requires NEWLINE !in line
    ensures Position(out, cursor) == Some(cursor + |line|)
  {
    forall k | cursor <= k < cursor + |line| ensures out[k] != NEWLINE {
      assert out[k] == out[cursor..cursor + |line|][k - cursor] == line[k - cursor];
    }
  }

  lemma AnswersTail(blobs: seq<Blob>, contents: seq<seq<byte>>)
    requires AreAnswers(blobs, contents) && |blobs| > 0
    ensures IsAnswer(blobs[0], contents[0]) && AreAnswers(blobs[1..], contents[1..])
  {
    hide IsAnswer;
    forall k | 0 <= k < |blobs[1..]| ensures IsAnswer(blobs[1..][k], contents[1..][k]) {
      assert IsAnswer(blobs[k + 1], contents[k + 1]);
    }
  }

  lemma FilesStep(blobs: seq<Blob>, contents: seq<seq<byte>>)
    requires |blobs| == |contents| > 0
    ensures Files(blobs, contents) == [SourceFile(blobs[0].path, contents[0])] + Files(blobs[1..], contents[1..])
  {
  }

  lemma {:induction false} DecodeEncoded(out: seq<byte>, blobs: seq<Blob>, contents: seq<seq<byte>>, cursor: nat)
    requires |out| <= USIZE_MAX && cursor <= |out|
    requires AreAnswers(blobs, contents) && out[cursor..] == Encode(blobs, contents)
    ensures ReadFrom(out, blobs, cursor) == Ok(Files(blobs, contents))
    decreases |blobs|
  {
    if |blobs| > 0 {
      var next := cursor + |Header(blobs[0])| + 2 + |contents[0]|;
      AnswersTail(blobs, contents);
      hide Header, IsAnswer, AreAnswers, ReadBlob, Files;
      BlobEncoded(out, blobs[0], contents[0], Encode(blobs[1..], contents[1..]), cursor);
      hide Encode;
      DecodeEncoded(out, blobs[1..], contents[1..], next);
      FilesStep(blobs, contents);
    } else {
      assert |out[cursor..]| == 0 && Files(blobs, contents) == [];
    }
  }

  lemma BlobEncoded(out: seq<byte>, b: Blob, content: seq<byte>, rest: seq<byte>, cursor: nat)
    requires |out| <= USIZE_MAX && cursor <= |out| && IsAnswer(b, content)
    requires out[cursor..] == Header(b) + [NEWLINE] + content + [NEWLINE] + rest
    ensures ReadBlob(out, b, cursor) == Ok(Taken(content, cursor + |Header(b)| + 2 + |content|))
    ensures out[cursor + |Header(b)| + 2 + |content|..] == rest
  {
    var h := Header(b);
    HeaderIsText(b);
    hide Header, IsUtf8, CharLength;
    Layout(out, cursor, h, content, rest);
    PositionAfter(out, cursor, h);
  }

  lemma Layout(out: seq<byte>, cursor: nat, h: seq<byte>, content: seq<byte>, rest: seq<byte>)
    requires cursor <= |out| && out[cursor..] == h + [NEWLINE] + content + [NEWLINE] + rest
    ensures var s := cursor + |h| + 1; var e := s + |content|;
      && e < |out| && out[cursor..s - 1] == h && out[s - 1] == NEWLINE
      && out[s..e] == content && out[e] == NEWLINE && out[e + 1..] == rest
  {
    var t := out[cursor..];
    var s, e := |h| + 1, |h| + 1 + |content|;
    assert t[..|h|] == h && t[|h|] == NEWLINE && t[s..e] == content && t[e] == NEWLINE && t[e + 1..] == rest;
  }

  function Contents(files: seq<SourceFile>): seq<seq<byte>> {
    seq(|files|, k requires 0 <= k < |files| => files[k].content)
  }

  /** The stream from `cursor` is the encoding of these files for these requests. */
  predicate Decodes(tail: seq<byte>, blobs: seq<Blob>, files: seq<SourceFile>) {
    && AreAnswers(blobs, Contents(files)) && files == Files(blobs, Contents(files))
    && tail == Encode(blobs, Contents(files))
  }

  lemma DecodesCons(tail: seq<byte>, blobs: seq<Blob>, rest: seq<SourceFile>, content: seq<byte>, whole: seq<byte>)
    requires |blobs| > 0 && Decodes(tail, blobs[1..], rest) && IsAnswer(blobs[0], content)
    requires whole == Header(blobs[0]) + [NEWLINE] + content + [NEWLINE] + tail
    ensures Decodes(whole, blobs, [SourceFile(blobs[0].path, content)] + rest)
  {
    hide IsAnswer, Header;
    var files := [SourceFile(blobs[0].path, content)] + rest;
    assert Contents(files)[0] == content && Contents(files)[1..] == Contents(rest);
    forall k | 0 <= k < |blobs| ensures IsAnswer(blobs[k], Contents(files)[k]) {
      if k > 0 { assert IsAnswer(blobs[1..][k - 1], Contents(rest)[k - 1]); }
    }
    FilesStep(blobs, Contents(files));
  }

  lemma {:induction false} EncodeDecoded(out: seq<byte>, blobs: seq<Blob>, cursor: nat)
    requires cursor <= |out| && ReadFrom(out, blobs, cursor).Ok?
    ensures Decodes(out[cursor..], blobs, ReadFrom(out, blobs, cursor).value)
    decreases |blobs|
  {
    if |blobs| > 0 {
      hide ReadBlob, Decodes, IsAnswer, Header;
      var Taken(content, next) := ReadBlob(out, blobs[0], cursor).value;
      BlobDecoded(out, blobs[0], cursor);
      EncodeDecoded(out, blobs[1..], next);
      DecodesCons(out[next..], blobs, ReadFrom(out, blobs[1..], next).value, content, out[cursor..]);
    } else {
      assert out[cursor..] == [];
    }
  }

  lemma BlobDecoded(out: seq<byte>, b: Blob, cursor: nat)
    requires cursor <= |out| && ReadBlob(out, b, cursor).Ok?
    ensures var Taken(content, next) := ReadBlob(out, b, cursor).value;
      IsAnswer(b, content) && out[cursor..] == Header(b) + [NEWLINE] + content + [NEWLINE] + out[next..]
  {
    var Taken(content, next) := ReadBlob(out, b, cursor).value;
    HeaderIsText(b);
    var s := Position(out, cursor).value;
    hide Header, IsUtf8, CharLength;
    assert out[cursor..s] == Header(b) && out[s + 1..next - 1] == content;
    Relayout(out, cursor, s, next);
  }

  lemma Relayout(out: seq<byte>, cursor: nat, s: nat, next: nat)
    requires cursor <= s < next - 1 < |out| && out[s] == NEWLINE && out[next - 1] == NEWLINE
    ensures out[cursor..] == out[cursor..s] + [NEWLINE] + out[s + 1..next - 1] + [NEWLINE] + out[next..]
  {
    assert out[cursor..] == out[cursor..s] + out[s..];
    assert out[s..] == [NEWLINE] + out[s + 1..];
    assert out[s + 1..] == out[s + 1..next - 1] + out[next - 1..];
    assert out[next - 1..] == [NEWLINE] + out[next..];
  }

  /**
   * The parser accepts exactly the concatenations of header, newline, content and newline for the
   * requested blobs, with text of the stated sizes, and then returns those contents.
   */
  lemma AcceptsExactly(out: seq<byte>, blobs: seq<Blob>, files: seq<SourceFile>)
    requires |out| <= USIZE_MAX
    ensures ReadFrom(out, blobs, 0) == Ok(files) <==> Decodes(out, blobs, files)
  {
    assert out[0..] == out;
    if ReadFrom(out, blobs, 0) == Ok(files) { EncodeDecoded(out, blobs, 0); }
    if Decodes(out, blobs, files) { DecodeEncoded(out, blobs, Contents(files), 0); }
  }

  // ----- every answer -----

  function CodesOf(s: string): seq<int> { seq(|s|, k requires 0 <= k < |s| => s[k] as int) }

  /** The header is the object's name and the text ` blob `, then its size in decimal. */
  lemma HeaderReads(b: Blob)
    ensures Header(b) == b.name + CodesOf(" blob " + Dec(b.size))
  {
    var text := " blob " + Dec(b.size);
    var word := " blob ";
    assert word[0] as int == 32 && word[1] as int == 98 && word[2] as int == 108 && word[3] as int == 111;
    assert word[4] as int == 98 && word[5] as int == 32;
    assert CodesOf(text) == BLOB_WORD + DecBytes(b.size);
  }

  /** With no newline left there is no header. */
  lemma NoHeader(out: seq<byte>, b: Blob, cursor: nat)
    requires cursor <= |out| && NEWLINE !in out[cursor..]
    ensures ReadBlob(out, b, cursor) == Err(MissingHeader)
  {
    assert forall k :: cursor <= k < |out| ==> out[k] == out[cursor..][k - cursor];
  }

  lemma BlobUnfolds(out: seq<byte>, cursor: nat, p: nat, b: Blob)
    requires cursor <= p < |out| && Position(out, cursor) == Some(p)
    ensures ReadBlob(out, b, cursor) ==
      if !IsUtf8(out[cursor..p]) then Err(HeaderNotText)
      else if out[cursor..p] != Header(b) then Err(Mismatch)
      else if p + 1 + b.size > 0xFFFF_FFFF_FFFF_FFFF then Err(SizeOverflow)
      else if p + 1 + b.size > |out| then Err(Truncated)
      else if !IsUtf8(out[p + 1..p + 1 + b.size]) then Err(NotText)
      else if 0 in out[p + 1..p + 1 + b.size] then Err(Binary)
      else if p + 1 + b.size == |out| || out[p + 1 + b.size] != 10 then Err(MissingTerminator)
      else Ok(Taken(out[p + 1..p + 1 + b.size], p + 1 + b.size + 1))
  {
    hide IsUtf8, Header, Position;
  }

  lemma LineIs(before: seq<byte>, line: seq<byte>, after: seq<byte>)
    requires NEWLINE !in line
    ensures var out, p := before + (line + [NEWLINE] + after), |before| + |line|;
      p < |out| && Position(out, |before|) == Some(p) && out[|before|..p] == line && out[p + 1..] == after
  {
    var out, p := before + (line + [NEWLINE] + after), |before| + |line|;
    assert out[|before|..p] == line && out[p] == NEWLINE;
    PositionAfter(out, |before|, line);
  }

  /** A line that is not text, or not the header asked for, is refused. */
  lemma WrongHeader(before: seq<byte>, line: seq<byte>, after: seq<byte>, b: Blob)
    requires NEWLINE !in line && (!IsUtf8(line) || line != Header(b))
    ensures ReadBlob(before + (line + [NEWLINE] + after), b, |before|) ==
      Err(if IsUtf8(line) then Mismatch else HeaderNotText)
  {
    hide ReadBlob, IsUtf8, Header, Position;
    LineIs(before, line, after);
    BlobUnfolds(before + (line + [NEWLINE] + after), |before|, |before| + |line|, b);
  }

  /** A size that does not fit, or that is beyond the output, is refused. */
  lemma WrongSize(before: seq<byte>, after: seq<byte>, b: Blob)
    requires NEWLINE !in Header(b) && IsUtf8(Header(b))
    requires |before| + |Header(b)| + 1 + b.size > 0xFFFF_FFFF_FFFF_FFFF || |after| < b.size
    ensures ReadBlob(before + (Header(b) + [NEWLINE] + after), b, |before|) ==
      Err(if |before| + |Header(b)| + 1 + b.size > 0xFFFF_FFFF_FFFF_FFFF then SizeOverflow else Truncated)
  {
    hide ReadBlob, IsUtf8, Header, Position;
    LineIs(before, Header(b), after);
    BlobUnfolds(before + (Header(b) + [NEWLINE] + after), |before|, |before| + |Header(b)|, b);
  }

  lemma ContentIs(out: seq<byte>, start: nat, content: seq<byte>, after: seq<byte>)
    requires start <= |out| && out[start..] == content + after
    ensures var end := start + |content|;
      && |out| == end + |after| && out[start..end] == content && (after != [] ==> out[end] == after[0])
  {
    assert out[start..start + |content|] == out[start..][..|content|];
  }

  /** After the header, the content must be text without a zero byte, with a newline after it. */
  lemma ContentAnswers(before: seq<byte>, content: seq<byte>, after: seq<byte>, b: Blob)
    requires NEWLINE !in Header(b) && IsUtf8(Header(b)) && |content| == b.size
    requires |before| + |Header(b)| + 1 + b.size <= 0xFFFF_FFFF_FFFF_FFFF
    ensures ReadBlob(before + (Header(b) + [NEWLINE] + (content + after)), b, |before|) ==
      if !IsUtf8(content) then Err(NotText)
      else if 0 in content then Err(Binary)
      else if after == [] || after[0] != 10 then Err(MissingTerminator)
      else Ok(Taken(content, |before| + |Header(b)| + 1 + b.size + 1))
  {
    hide ReadBlob, IsUtf8, Header, Position;
    var out, p := before + (Header(b) + [NEWLINE] + (content + after)), |before| + |Header(b)|;
    LineIs(before, Header(b), content + after);
    ContentIs(out, p + 1, content, after);
    BlobUnfolds(out, |before|, p, b);
  }
}
