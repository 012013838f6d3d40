/**
 * The `Pages` object: its options, the compiler loop `parse` over the
 * wrapped template, the process-wide cache of render functions
 * `Pages.cache`, and the load / reload / clear operations on top of it.
 * The host (path resolution, file reading, module loading) is a value of
 * type `Host`; the render functions themselves are never run.
 */
module Loader {
  import opened Wrappers
  import opened Text
  import opened Compiler
  import Paths

  /** A marker or argument name after the constructor's `||` defaulting: never empty. */
  type Word = s: string | s != "" witness "?"

  const DefaultOpenWord: Word := "<?"
  const DefaultCloseWord: Word := "?>"
  const DefaultRenderArgName: Word := "arg"

  /** The options object; "" stands for an option that is absent, `null` or otherwise falsy. */
  datatype Config = Config(openWord: string, closeWord: string, renderArgName: string, workDir: string, srcPath: string)

  /** The `render` function of a loaded module, identified by the module text it was compiled from. */
  datatype RenderFn = RenderFn(code: string)

  /** What `require` returns for a generated module file: its `render` export, if any. */
  datatype JsModule = JsModule(render: Option<RenderFn>)

  /**
   * The runtime the object relies on: `path.resolve`, `fs.readFileSync`
   * (None when it throws), `require` of a module file just written with a
   * given text (None when it throws), and `path.join(__dirname, 'work')`.
   */
  datatype Host = Host(
    resolve: string -> string,
    readFile: string -> Option<string>,
    require: (string, string) -> Option<JsModule>,
    defaultWorkDir: string)

  /** The exception a load ends with. */
  datatype LoadError = ReadFailed(srcPath: string) | RequireFailed(dstPath: string)

  /** `a || b` on option strings. */
  function Or(a: string, b: string): string
  {
    if a != "" then a else b
  }

  /** The truthiness of a name: present and non-empty. */
  predicate Truthy(name: Option<string>)
  {
    name.Some? && name.value != ""
  }

  /** The property key a name indexes `Pages.cache` with: `null` converts to "null". */
  function PropertyKey(name: Option<string>): string
  {
    if name.Some? then name.value else "null"
  }

  /**
   * The key `"null"` a nameless object looks its `render` up under is the
   * identity of no template but one whose resolved path is `null` itself,
   * which `path.resolve` never returns.
   */
  lemma NullKeyMatchesNoTemplate(path: string)
    ensures Paths.MakeName(path) == PropertyKey(None) <==> path == "null"
  {
    if Paths.MakeName(path) == "null" {
      Paths.MakeNamePlainIsPath(path);
    }
    if path == "null" {
      Paths.MakeNameKeepsPlainNames(path);
    }
  }

  /**
   * The cache after `setCache(mdl, name)`: the module's `render` is
   * installed under the name exactly when the name is truthy and the module
   * has a `render`; every other entry stays as it was.
   */
  function Installed(entries: map<string, RenderFn>, name: Option<string>, mdl: Option<JsModule>): (r: map<string, RenderFn>)
    ensures if Truthy(name) && mdl.Some? && mdl.value.render.Some?
            then name.value in r && r[name.value] == mdl.value.render.value && r.Keys == entries.Keys + {name.value}
            else r == entries
    ensures forall k :: k in entries && !(name.Some? && k == name.value) ==> k in r && r[k] == entries[k]
  {
    if Truthy(name) && mdl.Some? && mdl.value.render.Some? then entries[name.value := mdl.value.render.value]
    else entries
  }

  /**
   * The cache after `deleteCache(name)`: a truthy name has no entry
   * afterwards, nothing else is removed, and no entry changes.
   */
  function Removed(entries: map<string, RenderFn>, name: Option<string>): (r: map<string, RenderFn>)
    ensures Truthy(name) ==> r.Keys == entries.Keys - {name.value}
    ensures !Truthy(name) ==> r == entries
    ensures forall k :: k in r ==> k in entries && r[k] == entries[k]
  {
    if Truthy(name) && name.value in entries then entries - {name.value} else entries
  }

  /** The cache never holds the empty name, since both operations need a truthy one. */
  lemma NoEmptyName(entries: map<string, RenderFn>, name: Option<string>, mdl: Option<JsModule>)
    requires "" !in entries
    ensures "" !in Installed(entries, name, mdl) && "" !in Removed(entries, name)
  {
  }

  /**
   * The cache and the outcome of `loadFileSync` once the names are set
   * (lines 50-55): an entry for `name` short-circuits the load; otherwise the
   * file is read, compiled, written to `dstPath` and required, and its
   * `render` is installed.
   */
  function LoadStep(entries: map<string, RenderFn>, name: string, srcPath: string, dstPath: string, d: Delims, host: Host)
    : (r: (map<string, RenderFn>, Option<LoadError>))
    requires ValidDelims(d)
    ensures name in entries ==> r == (entries, None)
    ensures r.1 == Some(ReadFailed(srcPath)) <==> name !in entries && host.readFile(srcPath).None?
    ensures r.1.Some? ==> r.0 == entries
    ensures forall k :: k != name ==> (k in r.0 <==> k in entries)
    ensures forall k :: k != name && k in entries ==> r.0[k] == entries[k]
  {
    if name in entries then (entries, None)
    else match host.readFile(srcPath)
      case None => (entries, Some(ReadFailed(srcPath)))
      case Some(dat) =>
        var code := Compile(Paths.StripBOM(dat), d);
        match host.require(dstPath, code)
        case None => (entries, Some(RequireFailed(dstPath)))
        case Some(mdl) => (Installed(entries, Some(name), Some(mdl)), None)
  }

  /** A cached name is not reloaded: the source file is not read again, whatever it now holds. */
  lemma CachedLoadIsReused(entries: map<string, RenderFn>, name: string, srcPath: string, dstPath: string, d: Delims, host1: Host, host2: Host)
    requires ValidDelims(d) && name in entries
    ensures LoadStep(entries, name, srcPath, dstPath, d, host1) == (entries, None)
    ensures LoadStep(entries, name, srcPath, dstPath, d, host1) == LoadStep(entries, name, srcPath, dstPath, d, host2)
  {
  }

  /** An uncached load that succeeds caches the render function compiled from the file's text, under its name only. */
  lemma FreshLoadCompiles(entries: map<string, RenderFn>, name: string, srcPath: string, dstPath: string, d: Delims, host: Host, dat: string)
    requires ValidDelims(d) && name != "" && name !in entries
    requires host.readFile(srcPath) == Some(dat)
    requires var code := Compile(Paths.StripBOM(dat), d);
             host.require(dstPath, code) == Some(JsModule(Some(RenderFn(code))))
    ensures var (r, err) := LoadStep(entries, name, srcPath, dstPath, d, host);
            err == None && r == entries[name := RenderFn(Compile(Paths.StripBOM(dat), d))]
  {
  }

  /** A host whose `path.resolve` leaves its own results alone, as `path.resolve` does with an absolute path. */
  ghost predicate ResolvesStably(host: Host)
  {
    forall p :: host.resolve(host.resolve(p)) == host.resolve(p)
  }

  /** A host whose `require` yields the module compiled from exactly the text written. */
  ghost predicate Faithful(host: Host)
  {
    forall p, code :: host.require(p, code) == Some(JsModule(Some(RenderFn(code))))
  }

  /** `Pages.cache`: one dictionary shared by every `Pages` object. */
  class RenderCache {
    var entries: map<string, RenderFn>

    constructor ()
      ensures entries == map[]
    {
      entries := map[];
    }
  }

  class Pages {
    const openWord: Word
    const closeWord: Word
    const renderArgName: Word
    const workDir: string
    const cache: RenderCache
    var srcPath: Option<string>
    var dstPath: Option<string>
    var name: Option<string>

    /** The constructor's defaulting, before any template is loaded (`null` names and paths). */
    constructor (conf: Config, shared: RenderCache, host: Host)
      ensures openWord == (if conf.openWord != "" then conf.openWord else DefaultOpenWord)
      ensures closeWord == (if conf.closeWord != "" then conf.closeWord else DefaultCloseWord)
      ensures renderArgName == (if conf.renderArgName != "" then conf.renderArgName else DefaultRenderArgName)
      ensures workDir == Or(if conf.workDir != "" then host.resolve(conf.workDir) else "", host.defaultWorkDir)
      ensures cache == shared
      ensures srcPath == None && dstPath == None && name == None
    {
      openWord := if conf.openWord != "" then conf.openWord else DefaultOpenWord;
      closeWord := if conf.closeWord != "" then conf.closeWord else DefaultCloseWord;
      renderArgName := if conf.renderArgName != "" then conf.renderArgName else DefaultRenderArgName;
      workDir := Or(if conf.workDir != "" then host.resolve(conf.workDir) else "", host.defaultWorkDir);
      cache := shared;
      srcPath := None;
      dstPath := None;
      name := None;
    }

    /** `new Pages(conf)` (also `Pages.create` and `Pages.newInstance`): construct, then load `conf.srcPath` when given. */
    static method Create(conf: Config, shared: RenderCache, host: Host) returns (p: Pages, err: Option<LoadError>)
      modifies shared
      ensures fresh(p) && p.cache == shared
      ensures p.openWord == (if conf.openWord != "" then conf.openWord else DefaultOpenWord)
      ensures p.closeWord == (if conf.closeWord != "" then conf.closeWord else DefaultCloseWord)
      ensures p.renderArgName == (if conf.renderArgName != "" then conf.renderArgName else DefaultRenderArgName)
      ensures p.workDir == Or(if conf.workDir != "" then host.resolve(conf.workDir) else "", host.defaultWorkDir)
      ensures conf.srcPath == "" ==> shared.entries == old(shared.entries) && err == None
      ensures conf.srcPath == "" ==> p.srcPath == None && p.dstPath == None && p.name == None
      ensures conf.srcPath != "" ==> p.Loaded(conf.srcPath, old(shared.entries), host, err)
    {
      p := new Pages(conf, shared, host);
      err := None;
      if conf.srcPath != "" {
        err := p.LoadFileSync(conf.srcPath, host);
      }
    }

    function Delims(): (d: Delims)
      ensures ValidDelims(d)
    {
      Compiler.Delims(openWord, closeWord, renderArgName)
    }

    /**
     * `parse`: the loop over the wrapped template, appending to `buf` the
     * statement for each literal and directive it meets, then the footer.
     */
    method Parse(src: string) returns (buf: string)
      ensures buf == Compile(src, Delims())
    {
      var ow, cw := openWord, closeWord;
      var w := cw + src + ow;
      assert w == Wrap(src, ow, cw);
      buf := Header(renderArgName);
      var body := Segments(w, ow, cw);
      buf := buf + body;
      buf := buf + Footer;
    }

    /** The loop of `parse` (lines 120-148) over the wrapped template `w`: one statement per literal and directive, in order. */
    static method Segments(w: string, ow: Word, cw: Word) returns (buf: string)
      requires OccursAt(w, cw, 0)
      ensures buf == EmitAll(Scan(w, ow, cw, 0))
    {
      ghost var body := EmitAll(Scan(w, ow, cw, 0));
      buf := "";
      var i, len := 0, |w|;
      while i < len
        invariant OccursAt(w, cw, i)
        invariant buf + EmitAll(Scan(w, ow, cw, i)) == body
        decreases len - i
      {
        IndexOfIs(w, cw, i, i);
        var start := IndexOf(w, cw, i) + |cw|;
        var end := IndexOf(w, ow, start);
        if end == -1 {
          EmitScanEmpty(w, ow, cw, i, start, end);
          break;
        }
        var lit := LiteralStatement(w[start..end]);
        var start2 := end + |ow|;
        var end2 := IndexOf(w, cw, start2);
        if end2 == -1 {
          EmitScanLast(w, ow, cw, i, start, end, start2, end2);
          buf := buf + lit;
          break;
        }
        var dir := Statement(w[start2..end2]);
        EmitScanStep(w, ow, cw, i, start, end, start2, end2);
        Rebracket(buf, lit, dir, EmitAll(Scan(w, ow, cw, end2)));
        buf := buf + lit + dir;
        i := end2;
      }
    }

    /** Lines 125-131: the literal span escaped into a single-quoted string append. */
    static method LiteralStatement(lit: string) returns (stmt: string)
      ensures stmt == Emit(Literal(lit))
    {
      var str := LiteralEscape.EscapeLiteral(lit);
      stmt := LiteralOpen + str + LiteralClose;
    }

    /** The `switch` on the first character of a directive body. */
    static method Statement(str: string) returns (stmt: string)
      ensures stmt == Emit(Classify(str))
    {
      var sigil := if |str| > 0 then str[..1] else "";
      if sigil == "-" {
        stmt := "  renderStr += " + str[1..] + ";\n";
      } else if sigil == "=" {
        stmt := "  renderStr += escape(" + str[1..] + ");\n";
      } else {
        stmt := str + "\n";
      }
      DirectiveEmission(str);
      if |str| > 0 {
        assert str[..1] == [str[0]];
      }
    }

    /** The value of `name || this.name` (None for `null`): a truthy argument wins, otherwise this object's name. */
    function NameArg(given: string): Option<string>
      reads this
    {
      if given != "" then Some(given) else name
    }

    /** `setCache(mdl, name)`. */
    method SetCache(mdl: Option<JsModule>, given: string)
      modifies cache
      ensures cache.entries == Installed(old(cache.entries), NameArg(given), mdl)
      ensures Truthy(NameArg(given)) && mdl.Some? && mdl.value.render.Some? ==> IsCached(given)
    {
      var n := NameArg(given);
      if Truthy(n) && mdl.Some? && mdl.value.render.Some? {
        cache.entries := cache.entries[n.value := mdl.value.render.value];
      }
    }

    /** `deleteCache(name)`. */
    method DeleteCache(given: string)
      modifies cache
      ensures cache.entries == Removed(old(cache.entries), NameArg(given))
      ensures Truthy(NameArg(given)) ==> !IsCached(given)
    {
      var n := NameArg(given);
      if Truthy(n) && n.value in cache.entries {
        cache.entries := cache.entries - {n.value};
      }
    }

    /** `isCached(name)`: whether the cache holds an entry under the key `name || this.name` converts to. */
    predicate IsCached(given: string)
      reads this, cache
      ensures NameArg(given).Some? ==> (IsCached(given) <==> NameArg(given).value in cache.entries)
      ensures NameArg(given).None? ==> (IsCached(given) <==> "null" in cache.entries)
    {
      PropertyKey(NameArg(given)) in cache.entries
    }

    /** `render(arg)`: the cached function for this object's name applied to `arg`, or "" when there is none. */
    function Render<A>(arg: A, run: (RenderFn, A) -> string): (out: string)
      reads this, cache
      ensures PropertyKey(name) !in cache.entries ==> out == ""
      ensures PropertyKey(name) in cache.entries ==> out == run(cache.entries[PropertyKey(name)], arg)
    {
      var key := PropertyKey(name);
      if key in cache.entries then run(cache.entries[key], arg) else ""
    }

    /** `createJsFileSync(buf, name, workDir)` without the write itself: the path of the module file, None where `path.join` would throw on a `null` name. */
    function CreateJsFileSync(given: string, givenWorkDir: string): Option<string>
      reads this
    {
      match NameArg(given)
      case None => None
      case Some(n) => Some(Paths.MakeDstPath(Or(givenWorkDir, workDir), n))
    }

    /** The state after `loadFileSync(given)` for a non-empty path: the names are set, and the cache and the outcome follow LoadStep. */
    ghost predicate Loaded(given: string, before: map<string, RenderFn>, host: Host, err: Option<LoadError>)
      reads this, cache
    {
      var full := host.resolve(given);
      var n := Paths.MakeName(full);
      srcPath == Some(full) && name == Some(n) && dstPath == Some(Paths.MakeDstPath(workDir, n)) &&
      (cache.entries, err) == LoadStep(before, n, full, Paths.MakeDstPath(workDir, n), Delims(), host)
    }

    /** `loadFileSync(srcPath)`. */
    method LoadFileSync(given: string, host: Host) returns (err: Option<LoadError>)
      modifies this, cache
      ensures given == "" ==> err == None && unchanged(this) && cache.entries == old(cache.entries)
      ensures given != "" ==> Loaded(given, old(cache.entries), host, err)
      ensures given != "" ==> dstPath == CreateJsFileSync("", "")
    {
      err := None;
      if given == "" {
        return;
      }
      var full := host.resolve(given);
      srcPath := Some(full);
      name := Some(Paths.MakeName(full));
      dstPath := Some(Paths.MakeDstPath(workDir, name.value));
      if IsCached("") {
        return;
      }
      var dat := host.readFile(full);
      if dat.None? {
        err := Some(ReadFailed(full));
        return;
      }
      var buf := Parse(Paths.StripBOM(dat.value));
      var filePath := CreateJsFileSync("", "");
      var mdl := host.require(filePath.value, buf);
      if mdl.None? {
        err := Some(RequireFailed(filePath.value));
        return;
      }
      SetCache(mdl, "");
    }

    /** `clear()`: drop this object's cache entry (the `require.cache` entry is outside the model). */
    method Clear()
      modifies cache
      ensures cache.entries == Removed(old(cache.entries), name)
    {
      DeleteCache("");
    }

    /** `reloadFileSync()`: without a loaded path nothing happens; otherwise clear, then load the same path again. */
    method ReloadFileSync(host: Host) returns (err: Option<LoadError>)
      modifies this, cache
      ensures !Truthy(old(srcPath)) ==> err == None && unchanged(this) && cache.entries == old(cache.entries)
      ensures Truthy(old(srcPath)) ==> Loaded(old(srcPath).value, Removed(old(cache.entries), old(name)), host, err)
    {
      err := None;
      if !Truthy(srcPath) {
        return;
      }
      Clear();
      err := LoadFileSync(srcPath.value, host);
    }
  }

  /**
   * A reload reads the template again: once its name has been cleared it is
   * compiled from the file's current text, whatever was cached before.
   */
  lemma ReloadRecompiles(entries: map<string, RenderFn>, name: string, srcPath: string, dstPath: string, d: Delims, host: Host, dat: string)
    requires ValidDelims(d) && name != "" && Faithful(host) && host.readFile(srcPath) == Some(dat)
    ensures var (r, err) := LoadStep(Removed(entries, Some(name)), name, srcPath, dstPath, d, host);
            err == None && name in r && r[name] == RenderFn(Compile(Paths.StripBOM(dat), d))
  {
    var code := Compile(Paths.StripBOM(dat), d);
    assert host.require(dstPath, code) == Some(JsModule(Some(RenderFn(code))));
  }

  /**
   * Two objects loading the same path share its cache entry: after the first
   * load, the second renders what the first compiled, even though the file
   * changed in between.
   */
  method CachedAcrossInstances<A>(path: string, first: string, second: string, host1: Host, host2: Host, arg: A, run: (RenderFn, A) -> string)
    returns (p1: Pages, p2: Pages)
    requires path != "" && Faithful(host1)
    requires host2.resolve == host1.resolve && host2.defaultWorkDir == host1.defaultWorkDir
    requires Paths.MakeName(host1.resolve(path)) != ""
    requires host1.readFile(host1.resolve(path)) == Some(first)
    requires host2.readFile(host1.resolve(path)) == Some(second)
    ensures p2.Render(arg, run) == p1.Render(arg, run)
    ensures p2.Render(arg, run) == run(RenderFn(Compile(Paths.StripBOM(first), p1.Delims())), arg)
  {
    var conf := Config("", "", "", "", path);
    var cache := new RenderCache();
    var err1, err2;
    p1, err1 := Pages.Create(conf, cache, host1);
    var n := Paths.MakeName(host1.resolve(path));
    FreshLoadCompiles(map[], n, host1.resolve(path), Paths.MakeDstPath(p1.workDir, n), p1.Delims(), host1, first);
    ghost var mid := cache.entries;
    p2, err2 := Pages.Create(conf, cache, host2);
    CachedLoadIsReused(mid, n, host1.resolve(path), Paths.MakeDstPath(p2.workDir, n), p2.Delims(), host2, host2);
  }

  /**
   * A reload picks up a changed template: after `reloadFileSync`, the object
   * renders with the function compiled from the file's current text.
   */
  method ReloadPicksUpChanges<A>(p: Pages, given: string, host: Host, dat: string, arg: A, run: (RenderFn, A) -> string)
    returns (err: Option<LoadError>)
    requires Faithful(host) && ResolvesStably(host)
    requires p.srcPath == Some(host.resolve(given)) && p.name == Some(Paths.MakeName(host.resolve(given)))
    requires Paths.MakeName(host.resolve(given)) != ""
    requires host.readFile(host.resolve(given)) == Some(dat)
    modifies p, p.cache
    ensures err == None
    ensures p.Render(arg, run) == run(RenderFn(Compile(Paths.StripBOM(dat), p.Delims())), arg)
  {
    var full := host.resolve(given);
    var n := Paths.MakeName(full);
    ghost var before := p.cache.entries;
    assert host.resolve(full) == full;
    err := p.ReloadFileSync(host);
    ReloadRecompiles(before, n, full, Paths.MakeDstPath(p.workDir, n), p.Delims(), host, dat);
  }

  lemma Rebracket(a: string, b: string, c: string, d: string)
    ensures a + (b + c + d) == a + b + c + d
    ensures a + (b + c) == a + b + c
  {
  }
}
