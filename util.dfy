/**
 * The logic of util.js: the module-level code point allocator
 * (`startUnicode`, `unicodeObj`, `getIconUnicode`), the directory filter
 * `filterSvgFiles`, the glyph naming and allocation order of `createSVG`,
 * and the output file names of the four font stages.
 */
module Util {
  import opened Base
  import opened NodePath

  /** A UTF-16 code unit: all that `String.fromCharCode` keeps of a number. */
  type CodeUnit = x: int | 0 <= x < 0x1_0000

  /** `startUnicode` when util.js is loaded. */
  const FirstCode: nat := 0xEA01

  /** The Private Use Area of the Basic Multilingual Plane (the Unicode Standard, section 23.5). */
  const PuaFirst: nat := 0xE000
  const PuaLast: nat := 0xF8FF

  predicate InPrivateUseArea(u: CodeUnit) {
    PuaFirst <= u <= PuaLast
  }

  /** `String.fromCharCode(n)`: the code unit congruent to `n` modulo 2^16 (ToUint16). */
  function FromCharCode(n: int): (u: CodeUnit)
    ensures (n - u) % 0x1_0000 == 0
    ensures 0 <= n < 0x1_0000 ==> u == n
  {
    n % 0x1_0000
  }

  /**
   * The module state of util.js: the counter `startUnicode`, and the object
   * `unicodeObj` as its keys in enumeration order plus the name-to-code map.
   */
  datatype Registry = Registry(next: nat, order: seq<string>, codes: map<string, CodeUnit>)

  /** The keys listed in `order` are exactly the keys of `codes`, each once. */
  ghost predicate RegistryValid(r: Registry) {
    NoDuplicates(r.order) && forall k :: k in r.codes <==> k in r.order
  }

  /** The state when util.js is loaded; nothing ever resets it. */
  const InitialRegistry: Registry := Registry(FirstCode, [], map[])

  datatype Allocation = Allocation(registry: Registry, unicode: CodeUnit)

  /**
   * `getIconUnicode(name)`: the current counter as a code unit, stored under
   * `name` (a repeated name keeps its place among the keys and gets the new
   * code), and the counter moves on by one.
   */
  function Allocate(r: Registry, name: string): (a: Allocation)
    ensures a.unicode == FromCharCode(r.next) && a.registry.next == r.next + 1
    ensures name in a.registry.codes && a.registry.codes[name] == a.unicode
    ensures forall k :: k != name ==> (k in a.registry.codes <==> k in r.codes)
    ensures forall k :: k != name && k in r.codes ==> a.registry.codes[k] == r.codes[k]
    ensures RegistryValid(r) ==> RegistryValid(a.registry) && IsPrefix(r.order, a.registry.order)
    ensures RegistryValid(r) && name in r.codes ==> a.registry.order == r.order
  {
    var u := FromCharCode(r.next);
    var order := if name in r.codes then r.order else r.order + [name];
    Allocation(Registry(r.next + 1, order, r.codes[name := u]), u)
  }

  /** The metadata attached to one glyph: `{ unicode: [u], name }`. */
  datatype Glyph = Glyph(name: string, unicode: seq<CodeUnit>)

  /** A glyph's name: the file's base name without ".svg". */
  function GlyphName(svgPath: string): string {
    BaseName(svgPath, ".svg")
  }

  datatype GlyphRun = GlyphRun(registry: Registry, glyphs: seq<Glyph>)

  /**
   * `createSVG` feeding the filtered paths to the font stream in order,
   * one `getIconUnicode` call per path. Glyph i carries the code of the
   * counter's i-th step from where it stood.
   */
  function WriteGlyphs(r: Registry, svgPaths: seq<string>): (run: GlyphRun)
    ensures |run.glyphs| == |svgPaths| && run.registry.next == r.next + |svgPaths|
    decreases |svgPaths|
  {
    if svgPaths == [] then GlyphRun(r, [])
    else
      var init := svgPaths[..|svgPaths| - 1];
      var before := WriteGlyphs(r, init);
      var name := GlyphName(svgPaths[|svgPaths| - 1]);
      var a := Allocate(before.registry, name);
      var glyphs := before.glyphs + [Glyph(name, [a.unicode])];
      assert forall i :: 0 <= i < |init| ==> glyphs[i] == before.glyphs[i] && init[i] == svgPaths[i];
      GlyphRun(a.registry, glyphs)
  }

  /** Glyph i is named after path i and carries the counter's i-th code from where it stood. */
  lemma {:induction false} GlyphAt(r: Registry, svgPaths: seq<string>, i: nat)
    requires i < |svgPaths|
    ensures WriteGlyphs(r, svgPaths).glyphs[i] == Glyph(GlyphName(svgPaths[i]), [FromCharCode(r.next + i)])
    decreases |svgPaths|
  {
    var init := svgPaths[..|svgPaths| - 1];
    var before := WriteGlyphs(r, init);
    if i < |init| {
      GlyphAt(r, init, i);
      assert init[i] == svgPaths[i];
      assert WriteGlyphs(r, svgPaths).glyphs[i] == before.glyphs[i];
    } else {
      assert i == |svgPaths| - 1 && before.registry.next == r.next + i;
    }
  }

  lemma WriteGlyphsGlyphs(r: Registry, svgPaths: seq<string>)
    ensures var run := WriteGlyphs(r, svgPaths);
      forall i :: 0 <= i < |svgPaths| ==>
        run.glyphs[i] == Glyph(GlyphName(svgPaths[i]), [FromCharCode(r.next + i)])
  {
    forall i | 0 <= i < |svgPaths|
      ensures WriteGlyphs(r, svgPaths).glyphs[i] == Glyph(GlyphName(svgPaths[i]), [FromCharCode(r.next + i)])
    {
      GlyphAt(r, svgPaths, i);
    }
  }

  /**
   * Feeding keeps the registry consistent and only adds keys, after the
   * ones it had and in order of first appearance.
   */
  lemma {:induction false} WriteGlyphsKeepsRegistry(r: Registry, svgPaths: seq<string>)
    requires RegistryValid(r)
    ensures var after := WriteGlyphs(r, svgPaths).registry;
      RegistryValid(after) && IsPrefix(r.order, after.order) &&
      forall k :: k in r.codes ==> k in after.codes
    decreases |svgPaths|
  {
    if svgPaths != [] {
      var init := svgPaths[..|svgPaths| - 1];
      WriteGlyphsKeepsRegistry(r, init);
      var before := WriteGlyphs(r, init).registry;
      var after := Allocate(before, GlyphName(svgPaths[|svgPaths| - 1])).registry;
      assert IsPrefix(r.order, before.order) && IsPrefix(before.order, after.order);
    }
  }

  /** Every fed name ends up with an entry. */
  lemma {:induction false} FedNameRegistered(r: Registry, svgPaths: seq<string>, i: nat)
    requires i < |svgPaths|
    ensures GlyphName(svgPaths[i]) in WriteGlyphs(r, svgPaths).registry.codes
    decreases |svgPaths|
  {
    var init := svgPaths[..|svgPaths| - 1];
    if i < |init| {
      FedNameRegistered(r, init, i);
      assert init[i] == svgPaths[i];
    } else {
      assert i == |svgPaths| - 1;
    }
  }

  /**
   * The module state as a class: `getIconUnicode` changes it in place and
   * every caller in the process shares the one instance.
   */
  class UnicodeRegistry {
    var startUnicode: nat
    var keys: seq<string>
    var unicodeObj: map<string, CodeUnit>

    function Model(): Registry
      reads this
    {
      Registry(startUnicode, keys, unicodeObj)
    }

    constructor ()
      ensures Model() == InitialRegistry && RegistryValid(Model())
    {
      startUnicode := FirstCode;
      keys := [];
      unicodeObj := map[];
    }

    /** `getIconUnicode(name)`: returns the one-element array `[unicode]`. */
    method GetIconUnicode(name: string) returns (unicode: seq<CodeUnit>)
      modifies this
      ensures Model() == Allocate(old(Model()), name).registry
      ensures unicode == [Allocate(old(Model()), name).unicode]
    {
      var u := FromCharCode(startUnicode);
      startUnicode := startUnicode + 1;
      if name !in unicodeObj {
        keys := keys + [name];
      }
      unicodeObj := unicodeObj[name := u];
      unicode := [u];
    }
  }

  /** `createSVG`'s loop over the filtered paths, calling `writeFontStream` on each. */
  method FeedGlyphs(registry: UnicodeRegistry, svgPaths: seq<string>) returns (glyphs: seq<Glyph>)
    modifies registry
    ensures registry.Model() == WriteGlyphs(old(registry.Model()), svgPaths).registry
    ensures glyphs == WriteGlyphs(old(registry.Model()), svgPaths).glyphs
  {
    glyphs := [];
    for i := 0 to |svgPaths|
      invariant registry.Model() == WriteGlyphs(old(registry.Model()), svgPaths[..i]).registry
      invariant glyphs == WriteGlyphs(old(registry.Model()), svgPaths[..i]).glyphs
    {
      assert svgPaths[..i + 1][..i] == svgPaths[..i];
      var name := GlyphName(svgPaths[i]);
      var unicode := registry.GetIconUnicode(name);
      glyphs := glyphs + [Glyph(name, unicode)];
    }
    assert svgPaths[..|svgPaths|] == svgPaths;
  }

  /** One entry of a directory listing; `typeof` may say it is not a string. */
  datatype Entry = Name(name: string) | NonString

  /** What `fs.readdirSync` produced: an array, a falsy value, or an exception. */
  datatype DirListing = Entries(entries: seq<Entry>) | Falsy | Unreadable(error: string)

  predicate IsSvgEntry(e: Entry) {
    e.Name? && ExtName(e.name) == ".svg"
  }

  /**
   * `svgArr` after the loop of `filterSvgFiles` has seen `entries`: each
   * string entry with extension ".svg", joined onto `dir`, unless the bare
   * entry is already in the array (the guard compares the bare name with
   * joined paths).
   */
  function SvgFiles(dir: string, entries: seq<Entry>): seq<string>
    decreases |entries|
  {
    if entries == [] then []
    else
      var acc := SvgFiles(dir, entries[..|entries| - 1]);
      var e := entries[|entries| - 1];
      if IsSvgEntry(e) && e.name !in acc then acc + [Join(dir, e.name)] else acc
  }

  function EmptyFolderMessage(dir: string): string {
    "Error! Svg folder is empty." + dir
  }

  /** `filterSvgFiles(dir)`, given what reading the directory produced. */
  method FilterSvgFiles(dir: string, listing: DirListing) returns (r: Result<seq<string>>)
    ensures listing.Unreadable? ==> r == Err(listing.error)
    ensures listing.Falsy? ==> r == Err(EmptyFolderMessage(dir))
    ensures listing.Entries? ==> r == Ok(SvgFiles(dir, listing.entries))
  {
    if listing.Unreadable? {
      return Err(listing.error);
    }
    if listing.Falsy? {
      return Err(EmptyFolderMessage(dir));
    }
    var files := listing.entries;
    var svgArr: seq<string> := [];
    for i := 0 to |files|
      invariant svgArr == SvgFiles(dir, files[..i])
    {
      SvgFilesStep(dir, files, i);
      if !files[i].Name? || ExtName(files[i].name) != ".svg" {
        continue;
      }
      if files[i].name !in svgArr {
        svgArr := svgArr + [Join(dir, files[i].name)];
      }
    }
    assert files[..|files|] == files;
    return Ok(svgArr);
  }

  /** The names of the string entries longer than ".svg" that end with it, in listing order. */
  function SvgNames(entries: seq<Entry>): (names: seq<string>)
    ensures forall i :: 0 <= i < |names| ==> HasSvgSuffix(names[i])
    decreases |entries|
  {
    if entries == [] then []
    else
      var e := entries[|entries| - 1];
      SvgNames(entries[..|entries| - 1]) + if e.Name? && HasSvgSuffix(e.name) then [e.name] else []
  }

  function JoinAll(dir: string, names: seq<string>): (paths: seq<string>)
    ensures |paths| == |names|
    ensures forall i :: 0 <= i < |names| ==> paths[i] == Join(dir, names[i])
  {
    seq(|names|, i requires 0 <= i < |names| => Join(dir, names[i]))
  }

  predicate SeparatorFree(entries: seq<Entry>) {
    forall i :: 0 <= i < |entries| && entries[i].Name? ==> Sep !in entries[i].name
  }

  /**
   * For a non-empty folder and entries without separators (as a directory
   * listing has), `filterSvgFiles` keeps exactly the string entries that end
   * in ".svg" and are longer than it, in listing order, each joined onto the
   * folder: "X.SVG", "a.svg.bak" and ".svg" are all dropped, and the
   * duplicate guard never drops anything.
   */
  lemma {:induction false} SvgFilesAreSvgNames(dir: string, entries: seq<Entry>)
    requires dir != "" && SeparatorFree(entries)
    ensures SvgFiles(dir, entries) == JoinAll(dir, SvgNames(entries))
    decreases |entries|
  {
    if entries != [] {
      var init := entries[..|entries| - 1];
      var e := entries[|entries| - 1];
      assert SeparatorFree(init) by {
        forall i | 0 <= i < |init| && init[i].Name? ensures Sep !in init[i].name {
          assert init[i] == entries[i];
        }
      }
      SvgFilesAreSvgNames(dir, init);
      var names := SvgNames(init);
      var acc := SvgFiles(dir, init);
      assert acc == JoinAll(dir, names);
      if e.Name? && HasSvgSuffix(e.name) {
        assert Sep !in e.name;
        ExtNameIsSvg(e.name);
        assert IsSvgEntry(e);
        forall i | 0 <= i < |acc| ensures acc[i] != e.name {
          JoinKeepsDir(dir, names[i]);
        }
        assert SvgFiles(dir, entries) == acc + [Join(dir, e.name)];
        assert SvgNames(entries) == names + [e.name];
        JoinAllSnoc(dir, names, e.name);
      } else {
        if e.Name? {
          ExtNameIsSvg(e.name);
        }
        assert !IsSvgEntry(e);
        assert SvgFiles(dir, entries) == acc;
        assert SvgNames(entries) == names + [];
        assert names + [] == names;
      }
    }
  }

  /**
   * A file named `stem` + ".svg" (with a non-empty stem free of separators)
   * passes the filter and yields the glyph name `stem`, and joined onto a
   * non-empty folder it contains a separator.
   */
  lemma SvgFileOfStem(dir: string, stem: string)
    requires stem != "" && Sep !in stem
    ensures IsSvgEntry(Name(stem + ".svg"))
    ensures GlyphName(Join(dir, stem + ".svg")) == stem
    ensures Sep !in stem + ".svg"
    ensures dir != "" ==> Sep in Join(dir, stem + ".svg")
  {
    var name := stem + ".svg";
    assert name[|name| - 4..] == ".svg" && name[..|name| - 4] == stem;
    assert Sep !in name by {
      forall i | 0 <= i < |name| ensures name[i] != Sep {
        if i < |stem| {
          assert name[i] == stem[i];
        }
      }
    }
    ExtNameIsSvg(name);
    BaseNameOfJoin(dir, name);
    if dir != "" {
      JoinKeepsDir(dir, name);
    }
  }

  /** One more entry is kept, joined onto the folder, exactly when it is an svg entry not yet in the array. */
  lemma SvgFilesSnoc(dir: string, entries: seq<Entry>, e: Entry)
    ensures var acc := SvgFiles(dir, entries);
      SvgFiles(dir, entries + [e]) == if IsSvgEntry(e) && e.name !in acc then acc + [Join(dir, e.name)] else acc
  {
    assert (entries + [e])[..|entries|] == entries;
  }

  /** One turn of the loop of `filterSvgFiles`, on a prefix of the listing. */
  lemma SvgFilesStep(dir: string, entries: seq<Entry>, i: nat)
    requires i < |entries|
    ensures var acc := SvgFiles(dir, entries[..i]);
      var e := entries[i];
      SvgFiles(dir, entries[..i + 1]) == if IsSvgEntry(e) && e.name !in acc then acc + [Join(dir, e.name)] else acc
  {
    var pre := entries[..i + 1];
    assert pre[..|pre| - 1] == entries[..i] && pre[|pre| - 1] == entries[i];
  }

  /** A listing of one svg file keeps it, joined onto the folder. */
  lemma OneSvgFile(dir: string, a: string)
    requires a != "" && Sep !in a
    ensures SvgFiles(dir, [Name(a + ".svg")]) == [Join(dir, a + ".svg")]
  {
    SvgFileOfStem(dir, a);
    SvgFilesSnoc(dir, [], Name(a + ".svg"));
    assert [] + [Name(a + ".svg")] == [Name(a + ".svg")];
  }

  /**
   * A listing of two svg files keeps both, in order, even when they have the
   * same name: the duplicate guard compares a bare name with joined paths.
   */
  lemma TwoSvgFiles(dir: string, a: string, b: string)
    requires dir != "" && a != "" && b != "" && Sep !in a && Sep !in b
    ensures SvgFiles(dir, [Name(a + ".svg")] + [Name(b + ".svg")]) == [Join(dir, a + ".svg")] + [Join(dir, b + ".svg")]
  {
    var ea, eb := Name(a + ".svg"), Name(b + ".svg");
    var pa := Join(dir, a + ".svg");
    OneSvgFile(dir, a);
    assert IsSvgEntry(eb) && b + ".svg" !in [pa] by {
      SvgFileOfStem(dir, a);
      SvgFileOfStem(dir, b);
    }
    SvgFilesSnoc(dir, [ea], eb);
  }

  lemma JoinAllSnoc(dir: string, names: seq<string>, name: string)
    ensures JoinAll(dir, names + [name]) == JoinAll(dir, names) + [Join(dir, name)]
  {
    assert forall i :: 0 <= i < |names| ==> (names + [name])[i] == names[i];
  }

  /** The first glyph of a process gets U+EA01, the next U+EA02, whatever the options say. */
  lemma FreshRegistryStartsAtEA01(svgPaths: seq<string>)
    requires |svgPaths| >= 2
    ensures WriteGlyphs(InitialRegistry, svgPaths).glyphs[0].unicode == [0xEA01]
    ensures WriteGlyphs(InitialRegistry, svgPaths).glyphs[1].unicode == [0xEA02]
  {
    GlyphAt(InitialRegistry, svgPaths, 0);
    GlyphAt(InitialRegistry, svgPaths, 1);
  }

  /** Within any 65536 consecutive allocations no code repeats. */
  lemma CodesDistinctInWindow(start: nat, i: nat, j: nat)
    requires i < j < i + 0x1_0000
    ensures FromCharCode(start + i) != FromCharCode(start + j)
  {
    var a, b := start + i, start + j;
    var qa, qb := a / 0x1_0000, b / 0x1_0000;
    var da, db := FromCharCode(a), FromCharCode(b);
    assert a == qa * 0x1_0000 + da;
    assert b == qb * 0x1_0000 + db;
    assert b - a == (qb - qa) * 0x1_0000 + (db - da);
  }

  /** After 65536 allocations the codes come round again. */
  lemma CodesRepeatAfterWrap(n: nat)
    ensures FromCharCode(n + 0x1_0000) == FromCharCode(n)
  {
  }

  /**
   * Glyph codes strictly increase along one feed as long as the counter has
   * not passed 0xFFFF, and are pairwise distinct within 65536 glyphs.
   */
  lemma GlyphCodesIncrease(r: Registry, svgPaths: seq<string>, i: nat, j: nat)
    requires i < j < |svgPaths|
    ensures var g := WriteGlyphs(r, svgPaths).glyphs;
      |g[i].unicode| == 1 && |g[j].unicode| == 1 &&
      (r.next + j < 0x1_0000 ==> g[i].unicode[0] < g[j].unicode[0]) &&
      (j < i + 0x1_0000 ==> g[i].unicode[0] != g[j].unicode[0])
  {
    GlyphAt(r, svgPaths, i);
    GlyphAt(r, svgPaths, j);
    if j < i + 0x1_0000 {
      CodesDistinctInWindow(r.next, i, j);
    }
  }

  /**
   * Counting from U+EA01, before the 16-bit wrap the k-th allocation (from 0)
   * lies in the Private Use Area exactly when k < 3839, i.e. up to U+F8FF.
   */
  lemma PrivateUseWindow(k: nat)
    requires FirstCode + k < 0x1_0000
    ensures InPrivateUseArea(FromCharCode(FirstCode + k)) <==> k < 3839
  {
  }

  /** The 5632nd allocation of a process (k = 5631) wraps to code unit 0. */
  lemma FirstWrapIsZero()
    ensures FromCharCode(FirstCode + 5631) == 0
    ensures FromCharCode(FirstCode + 5632) == 1
  {
  }

  /**
   * When a name is fed more than once, the map keeps the code of its last
   * feed; names not fed keep their entries.
   */
  lemma {:induction false} LastFeedWins(r: Registry, svgPaths: seq<string>, i: nat)
    requires i < |svgPaths|
    requires forall j :: i < j < |svgPaths| ==> GlyphName(svgPaths[j]) != GlyphName(svgPaths[i])
    ensures var codes := WriteGlyphs(r, svgPaths).registry.codes;
      GlyphName(svgPaths[i]) in codes && codes[GlyphName(svgPaths[i])] == FromCharCode(r.next + i)
    decreases |svgPaths|
  {
    var init := svgPaths[..|svgPaths| - 1];
    var before := WriteGlyphs(r, init).registry;
    var name, last := GlyphName(svgPaths[i]), GlyphName(svgPaths[|svgPaths| - 1]);
    assert WriteGlyphs(r, svgPaths).registry == Allocate(before, last).registry;
    if i < |init| {
      forall j | i < j < |init| ensures GlyphName(init[j]) != GlyphName(init[i]) {
        assert init[j] == svgPaths[j];
      }
      LastFeedWins(r, init, i);
      assert init[i] == svgPaths[i];
      assert name in before.codes && before.codes[name] == FromCharCode(r.next + i);
      assert last != name;
    } else {
      assert name == last && before.next == r.next + i;
    }
  }

  /** A name no path yields keeps whatever entry it had. */
  lemma {:induction false} UnfedNamesUnchanged(r: Registry, svgPaths: seq<string>, k: string)
    requires forall j :: 0 <= j < |svgPaths| ==> GlyphName(svgPaths[j]) != k
    ensures k in WriteGlyphs(r, svgPaths).registry.codes <==> k in r.codes
    ensures k in r.codes ==> WriteGlyphs(r, svgPaths).registry.codes[k] == r.codes[k]
    decreases |svgPaths|
  {
    if svgPaths != [] {
      var init := svgPaths[..|svgPaths| - 1];
      forall j | 0 <= j < |init| ensures GlyphName(init[j]) != k {
        assert init[j] == svgPaths[j];
      }
      UnfedNamesUnchanged(r, init, k);
    }
  }

  /** `path.join(dist, fontName + ext)`, `fontName + ext` and the size of one font artefact. */
  datatype FileReport = FileReport(path: string, fileName: string, size: nat)

  /** The report `createSVG`, `createTTF`, `createEOT` and `createWOFF` resolve with. */
  function FontReport(dist: string, fontName: string, ext: string, size: nat): FileReport {
    FileReport(Join(dist, fontName + ext), fontName + ext, size)
  }

  /**
   * The four font files land in `dist` under the font name with their own
   * extension: the path's last segment is the reported file name, and the
   * four paths differ.
   */
  lemma FontPathsDistinct(dist: string, fontName: string, size: nat)
    requires Sep !in fontName
    ensures forall ext :: ext in [".svg", ".ttf", ".eot", ".woff"] ==>
              Segment(FontReport(dist, fontName, ext, size).path) == fontName + ext
    ensures forall e1, e2 :: e1 in [".svg", ".ttf", ".eot", ".woff"] && e2 in [".svg", ".ttf", ".eot", ".woff"] && e1 != e2 ==>
              FontReport(dist, fontName, e1, size).path != FontReport(dist, fontName, e2, size).path
  {
    var exts := [".svg", ".ttf", ".eot", ".woff"];
    forall ext | ext in exts
      ensures Segment(FontReport(dist, fontName, ext, size).path) == fontName + ext
    {
      assert Sep !in ext;
      SegmentOfJoin(dist, fontName + ext);
    }
    forall e1, e2 | e1 in exts && e2 in exts && e1 != e2
      ensures FontReport(dist, fontName, e1, size).path != FontReport(dist, fontName, e2, size).path
    {
      assert (fontName + e1)[|fontName|..] == e1;
      assert (fontName + e2)[|fontName|..] == e2;
    }
  }
}
