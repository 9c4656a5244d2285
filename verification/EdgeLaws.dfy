/**
 * Which files an evidenced edge may lead to, from where, and on which lines it may stand
 * (src/adapters/imports.rs:253-424), in terms of names and text.
 */
module EdgeLaws {
  import opened Text
  import opened Paths
  import opened Stems
  import opened PathLaws
  import Imports
  import opened StrictEdges

  // ----- where a line's imports start -----

  /**
   * In the Rust file `stem` of a directory, `super` starts at the directory, or above it for a file
   * that stands for its directory, and not at all when repeated; `crate` starts at the last directory
   * called `src`; anything else starts at the file's submodules.
   */
  lemma RustAnchor(dirs: seq<string>, stem: string, text: string)
    requires AllNames(dirs + [stem + ".rs"]) && IsName(stem)
    ensures var anchor, owns := Anchor(Join(dirs + [stem + ".rs"], '/'), text), stem in ["main", "lib", "mod"];
      if "use crate::" <= text then anchor == SrcRoot(Normals(dirs))
      else if "use super::" <= text then
        if Contains(text, "super::super::") then anchor == None
        else if !owns then anchor == Some(Normals(dirs))
        else anchor == Some(Normals(if dirs == [] then [] else dirs[..|dirs| - 1]))
      else anchor == Some(Normals(if owns then dirs else dirs + [stem]))
  {
    var path := Join(dirs + [stem + ".rs"], '/');
    FileInDirectory(dirs, stem + ".rs");
    ModulesLive(dirs, stem);
    RustIs(dirs, stem);
    hide DirOf, ModuleDir, IsRust, Contains, SrcRoot, IsName, Join;
    if stem in ["main", "lib", "mod"] {
      ParentOfNormals(dirs);
    } else {
      ParentOfNormals(dirs + [stem]);
      assert (dirs + [stem])[..|dirs|] == dirs;
    }
  }

  lemma ParentOfNormals(parts: seq<string>)
    ensures ParentOrEmpty(Normals(parts)) == Normals(if parts == [] then [] else parts[..|parts| - 1])
  {
  }

  lemma {:induction false} LastOfJoin(dirs: seq<string>, last: string)
    ensures exists before :: Join(dirs + [last], '/') == before + last
  {
    if dirs == [] {
      assert dirs + [last] == [last];
      assert Join([last], '/') == "" + last;
    } else {
      JoinAppend(dirs, '/', [last]);
      assert Join(dirs + [last], '/') == (Join(dirs, '/') + ['/']) + last;
    }
  }

  lemma RustIs(dirs: seq<string>, stem: string)
    ensures IsRust(Join(dirs + [stem + ".rs"], '/'))
  {
    LastOfJoin(dirs, stem + ".rs");
    var before :| Join(dirs + [stem + ".rs"], '/') == before + (stem + ".rs");
    assert before + (stem + ".rs") == before + stem + ("." + "rs");
    LowerReads("rs");
    assert Lower("rs") == "rs";
    LanguageReads(before + stem, "rs");
  }

  /** The imports of a script start at its directory. */
  lemma ScriptAnchor(dirs: seq<string>, file: string, text: string)
    requires AllNames(dirs + [file]) && !IsRust(Join(dirs + [file], '/'))
    ensures Anchor(Join(dirs + [file], '/'), text) == Some(Normals(dirs))
  {
    FileInDirectory(dirs, file);
  }

  // ----- which files fit -----

  lemma LastName(parts: seq<string>, last: string)
    requires AllNames(parts) && IsName(last)
    ensures AllNames(parts + [last])
  {
    hide IsName;
  }

  lemma RustFileIs(dirs: seq<string>, stem: string)
    requires AllNames(dirs + [stem + ".rs"])
    ensures IsRustFile(Join(dirs + [stem + ".rs"], '/')) <==> stem != ""
  {
    FileInDirectory(dirs, stem + ".rs");
    ExtensionReads(stem, "rs");
    assert stem + ("." + "rs") == stem + ".rs";
    hide Components, ExtensionOf, StemOf;
  }

  lemma {:induction false} JoinSuffix(dirs: seq<string>, last: string, suffix: string)
    ensures Join(dirs + [last], '/') + suffix == Join(dirs + [last + suffix], '/')
  {
    if dirs == [] {
      assert dirs + [last] == [last] && dirs + [last + suffix] == [last + suffix];
    } else {
      JoinAppend(dirs, '/', [last]);
      JoinAppend(dirs, '/', [last + suffix]);
      assert Join(dirs, '/') + ['/'] + last + suffix == Join(dirs, '/') + ['/'] + (last + suffix);
    }
  }

  lemma NameWithSuffix(name: string)
    requires IsName(name)
    ensures IsName(name + ".rs") && name + ".rs" != ""
  {
    assert |name + ".rs"| > 3;
    assert (name + ".rs")[|name| + 1] == 'r';
  }

  /** A Rust module path of names fits the file of that name, and the `mod.rs` in the directory of that name. */
  lemma RustFits(dirs: seq<string>, name: string, path: string)
    requires AllNames(dirs) && IsName(name)
    ensures Fits(Join(dirs + [name], '/'), true, path) <==>
      path == Join(dirs + [name + ".rs"], '/') || path == Join(dirs + [name, "mod.rs"], '/')
  {
    NameWithSuffix(name);
    NameWithSuffix("mod");
    LastName(dirs, name + ".rs");
    LastName(dirs, name);
    LastName(dirs + [name], "mod.rs");
    RustFileIs(dirs, name);
    assert "mod" + ".rs" == "mod.rs";
    RustFileIs(dirs + [name], "mod");
    JoinSuffix(dirs, name, ".rs");
    JoinAppend(dirs + [name], '/', ["mod.rs"]);
    hide IsRustFile, Join, IsName;
    assert dirs + [name, "mod.rs"] == dirs + [name] + ["mod.rs"];
    ModSuffix(Join(dirs + [name], '/'));
  }

  lemma ModSuffix(text: string)
    ensures text + "/mod.rs" == text + ['/'] + Join(["mod.rs"], '/')
  {
  }

  predicate IsScript(extension: string) { extension in ["js", "jsx", "ts", "tsx", "mjs", "cjs", "mts", "cts"] }

  lemma ScriptFileIs(dirs: seq<string>, stem: string, extension: string)
    requires IsName(stem) && '.' !in extension && AllNames(dirs + [stem + ("." + extension)])
    ensures IsScriptFile(Join(dirs + [stem + ("." + extension)], '/')) <==> IsScript(extension)
  {
    FileInDirectory(dirs, stem + ("." + extension));
    ExtensionReads(stem, extension);
    hide Components, ExtensionOf, StemOf;
  }

  lemma SameNormals(a: seq<string>, b: seq<string>)
    ensures Normals(a) == Normals(b) <==> a == b
  {
    if Normals(a) == Normals(b) {
      forall k | 0 <= k < |a| ensures a[k] == b[k] { assert Normals(a)[k] == Normals(b)[k]; }
    }
  }

  lemma OneMore(parts: seq<string>, name: string)
    ensures Normals(parts + [name]) == Normals(parts) + [Normal(name)]
  {
  }

  lemma IndexInside(parts: seq<string>)
    requires AllNames(parts)
    ensures Components(Join(parts, '/')) == Normals(parts)
    ensures Components(Joined(Join(parts, '/'), "index")) == Normals(parts + ["index"])
  {
    hide Components, Join, Joined, Normals, IsName;
    ComponentsOfNames(parts);
    JoinedIs(Join(parts, '/'), "index");
    IndexIsName();
    ComponentsOfNames(["index"]);
    OneMore([], "index");
    OneMore(parts, "index");
    assert [] + ["index"] == ["index"];
    NoNormals();
  }

  lemma NoNormals()
    ensures Normals([]) == []
  {
  }

  /** A script's module path of names fits the scripts of that name, and the `index` ones in that directory. */
  lemma ScriptFits(parts: seq<string>, dirs: seq<string>, stem: string, extension: string)
    requires AllNames(parts) && IsName(stem) && '.' !in extension && AllNames(dirs + [stem + ("." + extension)])
    ensures Fits(Join(parts, '/'), false, Join(dirs + [stem + ("." + extension)], '/')) <==>
      IsScript(extension) && (dirs + [stem] == parts || dirs + [stem] == parts + ["index"])
  {
    ScriptFileIs(dirs, stem, extension);
    ScriptIsKeyed(dirs, stem, extension);
    IndexInside(parts);
    SameNormals(dirs + [stem], parts);
    SameNormals(dirs + [stem], parts + ["index"]);
    hide IsScriptFile, ScriptKey, Components, Join, Joined, IsName, Normals;
  }

  /** A candidate written with a script's extension names the module without it. */
  lemma ScriptStem(front: seq<string>, stem: string, extension: string)
    requires '.' !in extension
    ensures WithoutScriptExtension(front + [stem + ("." + extension)]) ==
      front + [if stem != "" && IsScript(extension) then stem else stem + ("." + extension)]
  {
    ExtensionReads(stem, extension);
    hide ExtensionOf, StemOf;
    var parts := front + [stem + ("." + extension)];
    assert parts[..|front|] == front;
  }

  // ----- which lines count -----

  /** An import line begins with one of five words. */
  lemma ActiveExactly(text: string)
    ensures IsActive(text) <==> exists w :: w in ["use ", "mod ", "pub mod ", "import ", "export "] && w <= text
  {
    var words := ["use ", "mod ", "pub mod ", "import ", "export "];
    assert words[0] == "use " && words[1] == "mod " && words[2] == "pub mod " && words[3] == "import "
      && words[4] == "export ";
    assert forall k :: 0 <= k < 5 ==> words[k] in words;
  }

  ghost predicate Holds(s: string, t: string) { exists a, b :: s == a + t + b }

  lemma HoldsIs(s: string, t: string)
    ensures Contains(s, t) <==> Holds(s, t)
  {
    if Contains(s, t) {
      var i :| 0 <= i <= |s| && At(s, i, t);
      assert s == s[..i] + t + s[i + |t|..];
    }
    if a, b :| s == a + t + b {
      assert At(s, |a|, t);
    }
  }

  /** A file is read when its language is known and nothing in it could hide or change an import line. */
  lemma OpaqueExactly(path: string, content: string)
    ensures IsOpaque(Imports.SourceFile(path, content)) <==>
      !IsSource(path) || exists w :: w in ["/*", "`", "r#\"", "#[path", "#[cfg"] && Holds(content, w)
  {
    var words := ["/*", "`", "r#\"", "#[path", "#[cfg"];
    assert words[0] == "/*" && words[1] == "`" && words[2] == "r#\"" && words[3] == "#[path" && words[4] == "#[cfg";
    forall w ensures Contains(content, w) <==> Holds(content, w) { HoldsIs(content, w); }
    hide Contains, Holds, IsSource;
  }

  lemma {:induction false} CountIs(c: char, s: string)
    ensures CountOf(c, s) == multiset(s)[c]
  {
    if s != "" {
      CountIs(c, s[..|s| - 1]);
      assert s == s[..|s| - 1] + [s[|s| - 1]];
    }
  }

  /** Each line adds its opening braces and takes off its closing ones, unless it is a comment. */
  lemma DepthExactly(lines: seq<string>, k: nat)
    requires k < |lines|
    ensures var text := Trim(lines[k]);
      Depth(lines, k + 1) ==
        if "//" <= text then Depth(lines, k) else Depth(lines, k) + multiset(text)['{'] - multiset(text)['}']
  {
    CountIs('{', Trim(lines[k]));
    CountIs('}', Trim(lines[k]));
    hide Trim, CountOf;
  }

  /** A file whose braces close too early, or are left open, evidences nothing, not even before that. */
  lemma UnbalancedHasNoEdges(x: Extract, all: seq<Imports.SourceFile>, f: Imports.SourceFile, k: nat)
    requires var lines := Lines(f.content); k <= |lines| && (Depth(lines, k) < 0 || Depth(lines, |lines|) != 0)
    ensures FileEdges(x, all, f) == []
  {
    hide Lines, Depth, EdgesBefore, IsOpaque;
  }

  /** In a file that is read and whose braces balance, each import line outside them has its edges. */
  lemma BalancedHasEdges(x: Extract, all: seq<Imports.SourceFile>, f: Imports.SourceFile, e: Edge)
    requires var lines := Lines(f.content);
      Depth(lines, |lines|) == 0 && forall k :: 0 <= k <= |lines| ==> Depth(lines, k) >= 0
    requires !IsOpaque(f) && 1 <= e.2 <= |Lines(f.content)|
    ensures var lines := Lines(f.content); var text := Trim(lines[e.2 - 1]);
      e in FileEdges(x, all, f) <==>
        (&& Depth(lines, e.2 - 1) == 0 && IsActive(text) && e.0 == f.path
         && exists c :: c in x(f.path, text) && Target(all, f, text, c) == Some(e.1))
  {
    hide Lines, Depth, EdgesBefore, IsOpaque, FoundOn, Trim, Target, IsActive, FileEdges;
    var lines := Lines(f.content);
    FileEdgesAre(x, all, f, e);
    FoundIs(x, all, f, Trim(lines[e.2 - 1]), e.2 - 1, Depth(lines, e.2 - 1), e);
  }
}
