/**
 * Template identity and artifact location: `makeName`, `makeDstPath` and
 * the byte-order-mark strip applied to every source read.
 */
module Paths {
  import opened Text

  /** The characters `makeName` rewrites. */
  predicate Structural(c: char)
  {
    c == '/' || c == '\\' || c == '.' || c == ':'
  }

  /**
   * `filePath && String(filePath).replace(/[\/\\]/g, '__').replace(/[\.:]/g, '-')`:
   * the empty (falsy) path comes back as it is. An identity holds no `/`,
   * `\`, `.` or `:`, so it names a single file in the work directory.
   */
  function MakeName(filePath: string): (name: string)
    ensures forall c :: c in name ==> !Structural(c)
  {
    if filePath == "" then filePath
    else
      var s1 := ReplaceAll(filePath, {'/', '\\'}, "__");
      ReplaceAllChars(filePath, {'/', '\\'}, "__");
      ReplaceAllChars(s1, {'.', ':'}, "-");
      ReplaceAll(s1, {'.', ':'}, "-")
  }

  /** What `makeName` does to one character. */
  function NameChar(c: char): string
  {
    if c == '/' || c == '\\' then "__"
    else if c == '.' || c == ':' then "-"
    else [c]
  }

  /** The single-pass reference for `makeName`. */
  function NameEach(s: string): string
  {
    if s == [] then [] else NameChar(s[0]) + NameEach(s[1..])
  }

  lemma MakeNameSteps(s: string, s1: string, t: string)
    requires s != ""
    requires ReplaceAll(s, {'/', '\\'}, "__") == s1
    requires ReplaceAll(s1, {'.', ':'}, "-") == t
    ensures MakeName(s) == t
  {
  }

  /** On one character `makeName` gives that character's substitute. */
  lemma MakeNameChar(c: char)
    ensures MakeName([c]) == NameChar(c)
  {
    ReplaceAllSingle(c, {'/', '\\'}, "__");
    if c == '/' || c == '\\' {
      ReplaceAllNoop("__", {'.', ':'}, "-");
      MakeNameSteps([c], "__", "__");
    } else {
      ReplaceAllSingle(c, {'.', ':'}, "-");
      MakeNameSteps([c], [c], NameChar(c));
    }
  }

  /** `makeName` distributes over concatenation of non-empty paths. */
  lemma MakeNameConcat(a: string, b: string)
    requires a != [] && b != []
    ensures MakeName(a + b) == MakeName(a) + MakeName(b)
  {
    var a1, b1 := ReplaceAll(a, {'/', '\\'}, "__"), ReplaceAll(b, {'/', '\\'}, "__");
    ReplaceAllConcat(a, b, {'/', '\\'}, "__");
    ReplaceAllConcat(a1, b1, {'.', ':'}, "-");
  }

  /**
   * `makeName` is one pass over the path: each `/` or `\` becomes `__`, each
   * `.` or `:` becomes `-`, and every other character is kept, in order.
   */
  lemma {:induction false} MakeNameIsSinglePass(s: string)
    ensures MakeName(s) == NameEach(s)
  {
    if s != [] {
      MakeNameChar(s[0]);
      if |s| > 1 {
        assert s == [s[0]] + s[1..];
        MakeNameConcat([s[0]], s[1..]);
        MakeNameIsSinglePass(s[1..]);
      } else {
        assert s == [s[0]];
      }
    }
  }

  lemma {:induction false} NameEachKeeps(s: string)
    requires forall c :: c in s ==> !Structural(c)
    ensures NameEach(s) == s
  {
    if s != [] {
      assert s[0] in s;
      assert forall c :: c in s[1..] ==> c in s;
      NameEachKeeps(s[1..]);
    }
  }

  /** A path with no structural character is its own identity. */
  lemma {:induction false} MakeNameKeepsPlainNames(s: string)
    requires forall c :: c in s ==> !Structural(c)
    ensures MakeName(s) == s
  {
    MakeNameIsSinglePass(s);
    NameEachKeeps(s);
  }

  lemma {:induction false} NameEachPlain(s: string)
    requires forall c :: c in NameEach(s) ==> c != '_' && c != '-'
    ensures NameEach(s) == s
  {
    if s != [] {
      var h := NameChar(s[0]);
      assert NameEach(s) == h + NameEach(s[1..]);
      assert h[0] in NameEach(s);
      assert forall c :: c in NameEach(s[1..]) ==> c in NameEach(s);
      NameEachPlain(s[1..]);
    }
  }

  /** An identity with no `_` and no `-` in it is the path itself: nothing was rewritten. */
  lemma MakeNamePlainIsPath(s: string)
    requires forall c :: c in MakeName(s) ==> c != '_' && c != '-'
    ensures MakeName(s) == s
  {
    MakeNameIsSinglePass(s);
    NameEachPlain(s);
  }

  /** The identity is only best-effort injective: these two distinct files share one cache entry. */
  lemma MakeNameCollides(a: string, b: string)
    requires a == "/t.npg" && b == "/t-npg"
    ensures a != b && MakeName(a) == MakeName(b)
  {
    assert a[2] != b[2];
    MakeNameIsSinglePass(a);
    MakeNameIsSinglePass(b);
    NameOfDotted(a);
    NameOfDashed(b);
  }

  lemma NameOfDotted(a: string)
    requires a == "/t.npg"
    ensures NameEach(a) == "__t-npg"
  {
    assert a == ['/'] + "t.npg" && "t.npg" == ['t'] + ".npg" && ".npg" == ['.'] + "npg";
    NameEachCons('/', "t.npg");
    NameEachCons('t', ".npg");
    NameEachCons('.', "npg");
  }

  lemma NameOfDashed(b: string)
    requires b == "/t-npg"
    ensures NameEach(b) == "__t-npg"
  {
    assert b == ['/'] + "t-npg" && "t-npg" == ['t'] + "-npg" && "-npg" == ['-'] + "npg";
    NameEachCons('/', "t-npg");
    NameEachCons('t', "-npg");
    NameEachCons('-', "npg");
  }

  lemma NameEachCons(c: char, s: string)
    ensures NameEach([c] + s) == NameChar(c) + NameEach(s)
  {
    assert ([c] + s)[1..] == s;
  }

  /**
   * `path.join(workDir, name) + '.js'`, for a work directory already in
   * normal form (absolute, no trailing separator) and a name from `MakeName`.
   */
  function MakeDstPath(workDir: string, name: string): string
  {
    workDir + "/" + name + ".js"
  }

  /** Two identities share a module file in one work directory exactly when they are equal. */
  lemma DstPathDeterminesName(workDir: string, a: string, b: string)
    ensures MakeDstPath(workDir, a) == MakeDstPath(workDir, b) <==> a == b
  {
    if MakeDstPath(workDir, a) == MakeDstPath(workDir, b) {
      var p := MakeDstPath(workDir, a);
      assert |a| == |b|;
      assert p[|workDir| + 1..|workDir| + 1 + |a|] == a;
      assert MakeDstPath(workDir, b)[|workDir| + 1..|workDir| + 1 + |b|] == b;
    }
  }

  /** The artifact sits directly in the work directory, and its base name gives back the identity. */
  lemma DstPathInWorkDir(workDir: string, path: string)
    ensures MakeDstPath(workDir, MakeName(path))[..|workDir| + 1] == workDir + "/"
    ensures MakeDstPath(workDir, MakeName(path))[|workDir| + 1..] == MakeName(path) + ".js"
    ensures forall k :: |workDir| + 1 <= k < |MakeDstPath(workDir, MakeName(path))| ==>
              MakeDstPath(workDir, MakeName(path))[k] != '/' && MakeDstPath(workDir, MakeName(path))[k] != '\\'
  {
    var name := MakeName(path);
    var dst := MakeDstPath(workDir, name);
    assert dst[|workDir| + 1..] == name + ".js";
    forall k | |workDir| + 1 <= k < |dst| ensures dst[k] != '/' && dst[k] != '\\' {
      assert dst[k] == (name + ".js")[k - |workDir| - 1];
      if k - |workDir| - 1 < |name| {
        assert dst[k] in name;
      }
    }
  }

  /** The byte-order mark U+FEFF. */
  const BOM: char := '\U{FEFF}'

  /** `stripBOM`: one leading byte-order mark is dropped. */
  function StripBOM(dat: string): (r: string)
    ensures (|dat| > 0 && dat[0] == BOM) ==> dat == [BOM] + r
    ensures !(|dat| > 0 && dat[0] == BOM) ==> r == dat
  {
    if |dat| > 0 && dat[0] == BOM then dat[1..] else dat
  }

  /** Only one mark is removed: a second one stays in the text. */
  lemma StripBOMOnce(s: string)
    ensures StripBOM([BOM] + s) == s
    ensures StripBOM([BOM, BOM] + s) == [BOM] + s
  {
    assert ([BOM] + s)[0] == BOM;
    assert ([BOM, BOM] + s)[1..] == [BOM] + s;
  }
}
