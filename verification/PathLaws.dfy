/**
 * How paths and file names are read (src/adapters/imports.rs:253-290, 331-399,
 * src/domain/language.rs:285-298), in terms of the text between their slashes and after their dots.
 */
module PathLaws {
  import opened Text
  import opened Paths
  import opened Stems

  // ----- the parts of a path -----

  predicate AreParts(parts: seq<string>) { forall part :: part in parts ==> '/' !in part }

  /** Each part is a name or `..`. */
  predicate AreSteps(parts: seq<string>) { forall part :: part in parts ==> IsName(part) || part == ".." }

  /** A name is itself, and `..` leads up. */
  function Steps(parts: seq<string>): (path: Path)
    ensures |path| == |parts|
  {
    seq(|parts|, k requires 0 <= k < |parts| => if parts[k] == ".." then Up else Normal(parts[k]))
  }

  lemma {:induction false} LaterSteps(parts: seq<string>)
    requires AreSteps(parts)
    ensures Later(parts) == Steps(parts)
  {
    if parts != [] {
      assert parts[0] in parts;
      LaterSteps(parts[1..]);
      assert Steps(parts) == Steps(parts)[..1] + Steps(parts[1..]);
    }
  }

  lemma SplitParts(parts: seq<string>)
    requires AreParts(parts) && parts != []
    ensures Split(Join(parts, '/'), '/') == parts
  {
    SplitJoin(parts, '/');
  }

  /** Names and `..` between slashes are read one by one. */
  lemma StepsRead(parts: seq<string>)
    requires AreSteps(parts)
    ensures Components(Join(parts, '/')) == Steps(parts)
  {
    hide Split, Later, IsName;
    if parts == [] {
      ComponentsOfEmpty();
    } else {
      var text := Join(parts, '/');
      StepsAreParts(parts);
      SplitParts(parts);
      FirstPart(text);
      LaterSteps(parts[1..]);
      FirstStep(parts);
      assert Steps(parts) == Steps(parts)[..1] + Steps(parts[1..]);
    }
  }

  lemma StepsAreParts(parts: seq<string>)
    requires AreSteps(parts)
    ensures AreParts(parts)
  {
  }

  lemma FirstStep(parts: seq<string>)
    requires AreSteps(parts) && parts != []
    ensures PartOf(parts[0], true) == Steps(parts)[..1] && parts[0] != "" && AreSteps(parts[1..])
  {
    assert parts[0] in parts;
  }

  lemma JoinedSlash(parts: seq<string>)
    requires AreParts(parts) && |parts| > 1
    ensures "/" <= Join(parts, '/') <==> parts[0] == ""
  {
    assert parts[0] in parts;
    hide AreParts;
    var text := Join(parts, '/');
    assert text == parts[0] + ['/'] + Join(parts[1..], '/');
    if parts[0] != "" { assert text[0] == parts[0][0] && parts[0][0] in parts[0]; }
  }

  lemma PartsRead(parts: seq<string>)
    requires AreParts(parts) && |parts| > 1
    ensures Components(Join(parts, '/')) ==
      (if parts[0] == "" then [Root] else PartOf(parts[0], true)) + Later(parts[1..])
  {
    JoinedSlash(parts);
    SplitParts(parts);
    hide Split, Join, PartOf, Later, AreParts;
  }

  lemma LaterSkips(a: seq<string>, noise: string, b: seq<string>)
    requires noise == "" || noise == "."
    ensures Later(a + [noise] + b) == Later(a + b)
  {
    assert Later([noise]) == [];
    hide Later;
    LaterAppend(a + [noise], b);
    LaterAppend(a, [noise]);
    LaterAppend(a, b);
    assert Later(a) + [] == Later(a);
  }

  /** After the first part, empty parts and `.` are not read. */
  lemma NoiseIsSkipped(a: seq<string>, noise: string, b: seq<string>)
    requires AreParts(a + b) && |a| > 0 && |a + b| > 1 && (noise == "" || noise == ".")
    ensures Components(Join(a + [noise] + b, '/')) == Components(Join(a + b, '/'))
  {
    hide Components, Join, PartOf, Later;
    var more, less := a + [noise] + b, a + b;
    assert more[0] == a[0] == less[0] && AreParts(more);
    PartsRead(more);
    PartsRead(less);
    assert more[1..] == a[1..] + [noise] + b && less[1..] == a[1..] + b;
    LaterSkips(a[1..], noise, b);
  }

  /** A leading slash is the root. */
  lemma RootedRead(parts: seq<string>)
    requires AreSteps(parts)
    ensures Components("/" + Join(parts, '/')) == [Root] + Steps(parts)
  {
    hide Components, Steps, Join, AreSteps;
    StepsRead(parts);
    NotRooted(parts);
    NoCur(parts);
    RootSlash(Join(parts, '/'));
  }

  /** A leading `.` is kept. */
  lemma DottedRead(parts: seq<string>)
    requires AreSteps(parts)
    ensures Components("./" + Join(parts, '/')) == [Cur] + Steps(parts)
  {
    hide Components, Steps, Join, AreSteps;
    StepsRead(parts);
    NotRooted(parts);
    NoCur(parts);
    OneDot();
    ComponentsAtSlash(".", Join(parts, '/'));
    assert "." + "/" + Join(parts, '/') == "./" + Join(parts, '/');
  }

  lemma OneDot()
    ensures Components(".") == [Cur]
  {
    SplitWithoutSep(".", '/');
    assert Split(".", '/')[1..] == [];
  }

  lemma NotRooted(parts: seq<string>)
    requires AreSteps(parts)
    ensures !("/" <= Join(parts, '/'))
  {
    StepsAreParts(parts);
    if |parts| > 1 { JoinedSlash(parts); }
    if |parts| > 0 { FirstStep(parts); NamesAreRelative(parts[0]); }
  }

  lemma NoCur(parts: seq<string>)
    ensures WithoutCur(Steps(parts)) == Steps(parts)
  {
  }

  // ----- a file in a directory -----

  /** A path of names: its directory is the names before the last, and its file name the last. */
  lemma FileInDirectory(dirs: seq<string>, file: string)
    requires AllNames(dirs + [file])
    ensures var path := Join(dirs + [file], '/');
      DirOf(path) == Normals(dirs) && FileName(Components(path)) == Some(file)
  {
    var names := dirs + [file];
    ComponentsOfNames(names);
    hide Components, Join;
    assert Normals(names)[..|dirs|] == Normals(dirs) && Normals(names)[|dirs|] == Normal(file);
  }

  // ----- extensions -----

  lemma {:induction false} LastDotIs(s: string, n: nat, dot: nat)
    requires dot < n <= |s| && s[dot] == '.' && forall k :: dot < k < n ==> s[k] != '.'
    ensures LastDot(s, n) == Some(dot)
  {
    if dot < n - 1 { LastDotIs(s, n - 1, dot); }
  }

  lemma {:induction false} NoLastDot(s: string, n: nat)
    requires n <= |s| && forall k :: 0 <= k < n ==> s[k] != '.'
    ensures LastDot(s, n) == None
  {
    if n > 0 { NoLastDot(s, n - 1); }
  }

  lemma DotAt(before: string, after: string)
    requires '.' !in after
    ensures var s := before + ("." + after);
      LastDot(s, |s|) == Some(|before|) && s[..|before|] == before && s[|before| + 1..] == after
  {
    var s := before + ("." + after);
    assert forall k :: |before| < k < |s| ==> s[k] == after[k - |before| - 1];
    LastDotIs(s, |s|, |before|);
  }

  /** The extension is what follows the last dot, unless nothing precedes it. */
  lemma ExtensionReads(stem: string, extension: string)
    requires '.' !in extension
    ensures var name := stem + ("." + extension);
      if stem == "" then StemOf(name) == name && ExtensionOf(name) == None
      else StemOf(name) == stem && ExtensionOf(name) == Some(extension)
  {
    DotAt(stem, extension);
  }

  lemma NoExtension(name: string)
    requires '.' !in name
    ensures StemOf(name) == name && ExtensionOf(name) == None
  {
    NoLastDot(name, |name|);
  }

  /** ASCII letters lose their case, by code point. */
  lemma LowerReads(s: string)
    ensures |Lower(s)| == |s|
    ensures forall k :: 0 <= k < |s| ==>
      Lower(s)[k] as int == s[k] as int + if 65 <= s[k] as int <= 90 then 32 else 0
  {
  }

  /** The language of a path is told by what follows its last dot, in lower case and without a slash. */
  lemma LanguageReads(before: string, extension: string)
    requires '.' !in extension
    ensures var path, lower := before + ("." + extension), Lower(extension);
      && (IsRust(path) <==> '/' !in extension && lower == "rs")
      && (IsSource(path) <==>
            ('/' !in extension && lower in ["rs", "js", "jsx", "ts", "tsx", "mjs", "cjs", "mts", "cts"]))
  {
    DotAt(before, extension);
  }

  lemma NoLanguage(path: string)
    requires '.' !in path
    ensures !IsSource(path)
  {
    NoLastDot(path, |path|);
  }

  // ----- where imports start from -----

  lemma StemJoins(dirs: seq<string>, stem: string)
    requires IsName(stem)
    ensures JoinedTo(Normals(dirs), stem) == Normals(dirs + [stem])
  {
    ComponentsOfNames([stem]);
    NamesAreRelative(stem);
    assert Join([stem], '/') == stem;
    hide Components;
    assert Normals([stem]) == [Normal(stem)];
    assert Normals(dirs + [stem]) == Normals(dirs) + [Normal(stem)];
  }

  /** The submodules of a Rust file live beside it if it is `main`, `lib` or `mod`, and else below its stem. */
  lemma ModulesLive(dirs: seq<string>, stem: string)
    requires AllNames(dirs + [stem + ".rs"]) && IsName(stem)
    ensures ModuleDir(Join(dirs + [stem + ".rs"], '/')) ==
      Normals(if stem in ["main", "lib", "mod"] then dirs else dirs + [stem])
  {
    var file := stem + ".rs";
    FileInDirectory(dirs, file);
    ExtensionReads(stem, "rs");
    assert stem + ("." + "rs") == file;
    OwnsIs(stem);
    hide Components, StemOf, JoinedTo, DirOf, Normals, IsName;
    StemJoins(dirs, stem);
  }

  lemma OwnsIs(stem: string)
    ensures OwnsItsDirectory(stem + ".rs") <==> stem in ["main", "lib", "mod"]
  {
    var file := stem + ".rs";
    assert file[..|stem|] == stem;
    assert "main.rs"[..4] == "main" && "lib.rs"[..3] == "lib" && "mod.rs"[..3] == "mod";
    if file == "main.rs" { assert |stem| == 4; }
    if file == "lib.rs" || file == "mod.rs" { assert |stem| == 3; }
  }

  /** A script is indexed by its directories and its name without the extension. */
  lemma ScriptIsKeyed(dirs: seq<string>, stem: string, extension: string)
    requires IsName(stem) && '.' !in extension && AllNames(dirs + [stem + ("." + extension)])
    ensures ScriptKey(Join(dirs + [stem + ("." + extension)], '/')) == Normals(dirs + [stem])
  {
    FileInDirectory(dirs, stem + ("." + extension));
    ExtensionReads(stem, extension);
    hide Components, StemOf, JoinedTo, DirOf, Normals, IsName;
    StemJoins(dirs, stem);
  }
}
