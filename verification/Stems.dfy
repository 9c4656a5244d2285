/**
 * The module path that an import names, seen from the importing file (src/adapters/imports.rs:253-290,
 * 331-399, src/domain/language.rs:285-298).
 */
module Stems {
  import opened Text
  import opened Paths

  // ----- languages and extensions -----

  function LowerChar(c: char): char { if 'A' <= c <= 'Z' then (c as int + 32) as char else c }

  function Lower(s: string): string { seq(|s|, k requires 0 <= k < |s| => LowerChar(s[k])) }

  /** What `Language::from_path` looks up: the lower-case text after the last dot, if no slash is in it. */
  function SourceExtension(path: string): string {
    match LastDot(path, |path|)
    case None => ""
    case Some(dot) => if '/' in path[dot + 1..] then "" else Lower(path[dot + 1..])
  }

  predicate IsScriptExtension(extension: string) {
    || extension == "js" || extension == "jsx" || extension == "ts" || extension == "tsx"
    || extension == "mjs" || extension == "cjs" || extension == "mts" || extension == "cts"
  }

  predicate IsRust(path: string) { SourceExtension(path) == "rs" }

  predicate IsSource(path: string) { IsRust(path) || IsScriptExtension(SourceExtension(path)) }

  /** `has_js_extension`, which minds the case. */
  predicate HasScriptExtension(path: Path) { Extension(path).Some? && IsScriptExtension(Extension(path).value) }

  // ----- the directories an import may start from -----

  function DirOf(path: string): Path { ParentOrEmpty(Components(path)) }

  /**
   * `with_extension("")` of a file path, as an index key: paths are equal when their components are.
   * The extension goes before its dot does, so a file called `..` and an extension turns into `..`.
   */
  function ScriptKey(path: string): Path {
    match FileName(Components(path))
    case None => Components(path)
    case Some(name) => if StemOf(name) == "." then DirOf(path) + [Up] else JoinedTo(DirOf(path), StemOf(name))
  }

  predicate OwnsItsDirectory(name: string) { name == "main.rs" || name == "lib.rs" || name == "mod.rs" }

  /** Where the submodules of a Rust file live. */
  function ModuleDir(path: string): Path {
    match FileName(Components(path))
    case None => JoinedTo(DirOf(path), "")
    case Some(name) => if OwnsItsDirectory(name) then DirOf(path) else JoinedTo(DirOf(path), StemOf(name))
  }

  /** Up to the last directory called `src`. */
  function SrcRoot(dir: Path): Option<Path> {
    if |dir| == 0 then None
    else if dir[|dir| - 1] == Normal("src") then Some(dir)
    else SrcRoot(dir[..|dir| - 1])
  }

  /** The directory that the candidates of a line are relative to; none if it is unknown. */
  function Anchor(path: string, text: string): Option<Path> {
    if !IsRust(path) then Some(DirOf(path))
    else if "use crate::" <= text then SrcRoot(DirOf(path))
    else if "use super::" <= text then
      if Contains(text, "super::super::") then None else Some(ParentOrEmpty(ModuleDir(path)))
    else Some(ModuleDir(path))
  }

  // ----- the stem -----

  /** `set_extension("")` on a path of names, for the extensions of scripts. */
  function WithoutScriptExtension(parts: seq<string>): seq<string> {
    if |parts| == 0 then []
    else
      var n := |parts| - 1;
      var extension := ExtensionOf(parts[n]);
      if extension.Some? && IsScriptExtension(extension.value) then parts[..n] + [StemOf(parts[n])] else parts
  }

  /** The parts of the module path that a candidate names; none where the source skips it. */
  function StemParts(path: string, text: string, candidate: string): Option<seq<string>> {
    match Anchor(path, text)
    case None => None
    case Some(dir) =>
      match Resolved(JoinedTo(dir, candidate))
      case None => None
      case Some(parts) => Some(if IsRust(path) then parts else WithoutScriptExtension(parts))
  }

  method FindStem(path: string, text: string, candidate: string) returns (stem: Option<seq<string>>)
    ensures stem == StemParts(path, text, candidate)
  {
    hide Resolved, JoinedTo, IsRust, WithoutScriptExtension;
    var anchor := Anchor(path, text);
    if anchor.None? { return None; }
    var resolved := ResolveParts(JoinedTo(anchor.value, candidate));
    if resolved.None? { return None; }
    var parts := resolved.value;
    if !IsRust(path) { parts := WithoutScriptExtension(parts); }
    stem := Some(parts);
  }

  // ----- what a stem is -----

  lemma ParentHasNames(path: Path)
    requires HasNames(path)
    ensures HasNames(ParentOrEmpty(path))
  {
  }

  lemma ModuleDirHasNames(path: string)
    ensures HasNames(DirOf(path)) && HasNames(ModuleDir(path))
  {
    ComponentsHaveNames(path);
    ParentHasNames(Components(path));
    JoinedHasNames(DirOf(path), "");
    match FileName(Components(path))
    case None =>
    case Some(name) => JoinedHasNames(DirOf(path), StemOf(name));
  }

  /** The anchor of `use crate::` ends with the last `src` of the importing path. */
  lemma {:induction false} SrcRootIs(dir: Path)
    ensures match SrcRoot(dir)
      case None => Normal("src") !in dir
      case Some(root) =>
        && root <= dir && |root| > 0 && root[|root| - 1] == Normal("src")
        && Normal("src") !in dir[|root|..]
  {
    if |dir| > 0 {
      var front, last := dir[..|dir| - 1], dir[|dir| - 1];
      assert dir == front + [last];
      SrcRootIs(front);
      if last != Normal("src") && SrcRoot(front).Some? {
        var n := |SrcRoot(front).value|;
        assert dir[n..] == front[n..] + [last];
      }
    }
  }

  lemma AnchorHasNames(path: string, text: string)
    ensures Anchor(path, text).Some? ==> HasNames(Anchor(path, text).value)
  {
    hide DirOf, ModuleDir, SrcRoot, IsName;
    ModuleDirHasNames(path);
    ParentHasNames(ModuleDir(path));
    SrcRootIs(DirOf(path));
  }

  /** A stripped script name is a name, unless only dots are left of it. */
  lemma StripExactly(parts: seq<string>)
    requires AllNames(parts)
    ensures var r := WithoutScriptExtension(parts);
      && |r| == |parts|
      && (|r| > 0 ==> r[..|r| - 1] == parts[..|parts| - 1])
      && (AllNames(r) <==> |r| == 0 || !(r[|r| - 1] == "." || r[|r| - 1] == ".."))
  {
    var r := WithoutScriptExtension(parts);
    if |parts| > 0 {
      var n := |parts| - 1;
      assert parts[n] in parts;
      assert r == parts[..n] + [r[n]];
      assert r[n] <= parts[n] && r[n] != "";
      assert '/' !in r[n];
      assert AllNames(parts[..n]) && r[n] in r;
      hide StemOf, ExtensionOf, WithoutScriptExtension;
    }
  }

  /**
   * Exactly the candidates whose path, read from the anchor, never climbs above the inventory's root
   * have a stem. Its parts count how far below the root it is; they are names, without `.` and `..`,
   * but for a script whose extension leaves only dots.
   */
  lemma StemExactly(path: string, text: string, candidate: string)
    ensures StemParts(path, text, candidate).Some? <==>
      Anchor(path, text).Some? && StaysBelow(JoinedTo(Anchor(path, text).value, candidate))
    ensures match StemParts(path, text, candidate)
      case None => true
      case Some(parts) =>
        && |parts| == Height(JoinedTo(Anchor(path, text).value, candidate))
        && (|parts| > 0 ==> AllNames(parts[..|parts| - 1]))
        && (AllNames(parts) <==>
            IsRust(path) || |parts| == 0 || !(parts[|parts| - 1] == "." || parts[|parts| - 1] == ".."))
        && (AllNames(parts) <==> Components(Join(parts, '/')) == Normals(parts))
  {
    AnchorHasNames(path, text);
    if Anchor(path, text).Some? {
      var all := JoinedTo(Anchor(path, text).value, candidate);
      ResolvedExactly(all);
      if Resolved(all).Some? {
        JoinedHasNames(Anchor(path, text).value, candidate);
        ResolvedHasNames(all);
        StripExactly(Resolved(all).value);
        ReadsBackExactly(StemParts(path, text, candidate).value);
        assert AllNames(Resolved(all).value);
      }
    }
    hide Anchor, IsRust, JoinedTo, Resolved, StaysBelow, HasNames, WithoutScriptExtension, Components, Height, IsName;
  }

  /** What a relative candidate names, from an anchor that is `parts` below the root. */
  lemma RelativeStem(path: string, text: string, candidate: string, parts: seq<string>, k: nat, names: seq<string>)
    requires Anchor(path, text).Some? && Resolved(Anchor(path, text).value) == Some(parts)
    requires !("/" <= candidate) && WithoutCur(Components(candidate)) == Ups(k) + Normals(names)
    ensures StemParts(path, text, candidate) ==
      if k > |parts| then None
      else if IsRust(path) then Some(parts[..|parts| - k] + names)
      else Some(WithoutScriptExtension(parts[..|parts| - k] + names))
  {
    RelativePath(Anchor(path, text).value, candidate, parts, k, names);
    hide Anchor, IsRust, Resolved, JoinedTo, WithoutScriptExtension;
  }

  /** `super` is the directory of an ordinary file, and the parent of that of a file that owns it. */
  lemma SuperIs(path: string, name: string)
    requires FileName(Components(path)) == Some(name) && IsName(StemOf(name))
    ensures ParentOrEmpty(ModuleDir(path)) == if OwnsItsDirectory(name) then ParentOrEmpty(DirOf(path)) else DirOf(path)
  {
    var stem := StemOf(name);
    if !OwnsItsDirectory(name) {
      ComponentsOfNames([stem]);
      assert Components(stem) == [Normal(stem)];
      hide Components, StemOf;
      NamesAreRelative(stem);
      assert ModuleDir(path)[..|ModuleDir(path)| - 1] == DirOf(path);
    }
  }
}
