/**
 * The logic of index.js: the option defaults of the plugin's constructor,
 * the CSS rules and icon list that `apply` accumulates across hook runs,
 * and one run of the build hook as a fail-fast chain of six stages
 * (svg, ttf, eot, woff, css, html).
 */
module Plugin {
  import opened Base
  import opened NodePath
  import opened CssHex
  import opened Util

  datatype TemplatePaths = TemplatePaths(css: Option<string>, html: Option<string>)

  /**
   * The JavaScript values a caller may give as `clssaNamePrefix`: a string,
   * or one of the non-string values the source's `||` treats as false.
   */
  datatype PrefixValue = Str(s: string) | Undefined | Null | False | Zero

  /** Whether `||` treats the value as false. */
  predicate Falsy(v: PrefixValue) {
    v == Str("") || !v.Str?
  }

  /** The value as a template literal `${v}` spells it. */
  function Text(v: PrefixValue): string {
    match v
    case Str(s) => s
    case Undefined => "undefined"
    case Null => "null"
    case False => "false"
    case Zero => "0"
  }

  /** The option bag handed to the SVG font stream. */
  datatype SvgFontOptions = SvgFontOptions(fontHeight: Option<int>, normalize: Option<bool>)

  /** The plugin's options after merging (`this.options`). */
  datatype Options = Options(
    svg2ttf: map<string, string>,
    unicodeStart: int,
    fontName: string,
    fileName: string,
    htmlFileName: string,
    svgicons2svgfont: SvgFontOptions,
    clssaNamePrefix: PrefixValue,
    src: string,
    dist: string,
    template: TemplatePaths)

  /** The options object a caller passes: each key present or absent. */
  datatype CallerOptions = CallerOptions(
    svg2ttf: Option<map<string, string>>,
    unicodeStart: Option<int>,
    fontName: Option<string>,
    fileName: Option<string>,
    htmlFileName: Option<string>,
    svgicons2svgfont: Option<SvgFontOptions>,
    clssaNamePrefix: Option<PrefixValue>,
    src: Option<string>,
    dist: Option<string>,
    template: Option<TemplatePaths>)

  const NoOverrides: CallerOptions :=
    CallerOptions(None, None, None, None, None, None, None, None, None, None)

  /** The built-in defaults; `pluginDir` is the plugin's own directory (`__dirname`). */
  function Defaults(pluginDir: string): Options {
    Options(
      map[], 10000, "iconfont", "iconfont.css", "index.html",
      SvgFontOptions(Some(1000), Some(true)), Str("icon"),
      Join(pluginDir, "svgs"), Join(pluginDir, "dist"),
      TemplatePaths(Some(Join(pluginDir, "template/style.ejs")), Some(Join(pluginDir, "template/index.ejs"))))
  }

  function Pick<T>(given: Option<T>, default: T): T {
    match given
    case Some(v) => v
    case None => default
  }

  /** `_.extend(defaults, options)`: a key the caller gives replaces the default's whole value. */
  function Extend(d: Options, c: CallerOptions): Options {
    Options(
      Pick(c.svg2ttf, d.svg2ttf), Pick(c.unicodeStart, d.unicodeStart),
      Pick(c.fontName, d.fontName), Pick(c.fileName, d.fileName),
      Pick(c.htmlFileName, d.htmlFileName), Pick(c.svgicons2svgfont, d.svgicons2svgfont),
      Pick(c.clssaNamePrefix, d.clssaNamePrefix), Pick(c.src, d.src), Pick(c.dist, d.dist),
      Pick(c.template, d.template))
  }

  /**
   * Without caller keys the options are the documented defaults; a caller's
   * `template` replaces both default template paths even when it names only one.
   */
  lemma OptionDefaults(pluginDir: string, css: string)
    ensures var o := Extend(Defaults(pluginDir), NoOverrides);
      o.unicodeStart == 10000 && o.fontName == "iconfont" && o.fileName == "iconfont.css" &&
      o.htmlFileName == "index.html" && o.clssaNamePrefix == Str("icon") &&
      o.svgicons2svgfont == SvgFontOptions(Some(1000), Some(true)) && o.svg2ttf == map[]
    ensures var o := Extend(Defaults(pluginDir), NoOverrides.(template := Some(TemplatePaths(Some(css), None))));
      o.template.css == Some(css) && o.template.html == None
  {
  }

  /**
   * `_.extend` without caller keys keeps the defaults, applying the same
   * caller object twice changes nothing more, and a key the caller gives
   * (even an explicit `undefined`) wins whatever the default was.
   */
  lemma ExtendLaws(d: Options, d2: Options, c: CallerOptions)
    ensures Extend(d, NoOverrides) == d
    ensures Extend(Extend(d, c), c) == Extend(d, c)
    ensures c.clssaNamePrefix.Some? ==> Extend(d, c).clssaNamePrefix == Extend(d2, c).clssaNamePrefix
    ensures c.template.Some? ==> Extend(d, c).template == Extend(d2, c).template
    ensures c.clssaNamePrefix.None? ==> Extend(d, c).clssaNamePrefix == d.clssaNamePrefix
  {
  }

  /**
   * The rules and the stylesheet template see the same prefix exactly when
   * it is truthy or its text happens to be the font name; a falsy prefix
   * gives the template the font name while the rules spell the value.
   */
  lemma PrefixFallback(o: Options)
    ensures !Falsy(o.clssaNamePrefix) <==> o.clssaNamePrefix.Str? && o.clssaNamePrefix.s != ""
    ensures Falsy(o.clssaNamePrefix) ==> CssTemplatePrefix(o) == o.fontName
    ensures CssTemplatePrefix(o) == RulePrefix(o) <==>
      !Falsy(o.clssaNamePrefix) || Text(o.clssaNamePrefix) == o.fontName
  {
  }

  /**
   * A caller passing `clssaNamePrefix: undefined` overrides the default
   * "icon": every rule then starts with ".undefined-" while the stylesheet
   * template gets the font name "iconfont".
   */
  lemma UndefinedPrefixRules(pluginDir: string, name: string, code: CodeUnit)
    ensures var o := Extend(Defaults(pluginDir), NoOverrides.(clssaNamePrefix := Some(Undefined)));
      o.clssaNamePrefix == Undefined && CssTemplatePrefix(o) == "iconfont" &&
      CssRule(RulePrefix(o), name, code) == ".undefined-" + name + ":before { content: \"\\" + ToHex(code) + "\"; }\n"
  {
  }

  /** The opening of a rule, up to and including the escape's backslash. */
  function RuleHead(prefix: string, name: string): string {
    "." + prefix + "-" + name + ":before { content: \"\\"
  }

  const RuleTail: string := "\"; }\n"

  /** `.<prefix>-<name>:before { content: "\<hex>"; }` and a newline. */
  function CssRule(prefix: string, name: string, code: CodeUnit): string {
    RuleHead(prefix, name) + ToHex(code) + RuleTail
  }

  /** Reads the code back out of a rule: the hex digits after the last backslash, before the tail. */
  function RuleCode(rule: string): Option<nat> {
    if !EndsWith(rule, RuleTail) then None
    else
      var body := rule[..|rule| - |RuleTail|];
      var k := LastIndexOf(body, '\\');
      if k < 0 then None else ParseHex(body[k + 1..])
  }

  /** Every rule gives back the code it was written with, whatever the prefix and name. */
  lemma RuleCodeRoundTrip(prefix: string, name: string, code: CodeUnit)
    ensures RuleCode(CssRule(prefix, name, code)) == Some(code)
  {
    var head, hex := RuleHead(prefix, name), ToHex(code);
    var rule := CssRule(prefix, name, code);
    assert rule == (head + hex) + RuleTail;
    assert rule[..|rule| - |RuleTail|] == head + hex;
    assert '\\' !in hex by {
      forall i | 0 <= i < |hex| ensures hex[i] != '\\' { }
    }
    LastIndexOfAppend(head, hex, '\\');
    assert head[|head| - 1] == '\\';
    assert (head + hex)[|head|..] == hex;
    HexRoundTrip(code);
  }

  /**
   * A stylesheet reading the escape of a rule (section 4.3.7 of CSS Syntax
   * Module Level 3) gets the code back and stops at the closing quote; codes
   * 0 and U+D800..U+DFFF, reachable only after the 16-bit wrap, read as U+FFFD.
   */
  lemma RuleEscapeReadsCode(prefix: string, name: string, code: CodeUnit)
    ensures var rule := CssRule(prefix, name, code);
      var head := RuleHead(prefix, name);
      head[|head| - 1] == '\\' &&
      ConsumeEscape(rule[|head|..])
        == Escaped(if code == 0 || 0xD800 <= code <= 0xDFFF then Replacement else code, RuleTail)
  {
    var head := RuleHead(prefix, name);
    var rule := CssRule(prefix, name, code);
    assert rule[|head|..] == ToHex(code) + RuleTail;
    EscapeOfCodeUnit(code, RuleTail);
  }

  /** The rules of `Object.keys(unicodes).forEach`, one per key, in key order. */
  function Rules(prefix: string, keys: seq<string>, codes: map<string, CodeUnit>): (rules: seq<string>)
    requires forall k :: k in keys ==> k in codes
    ensures |rules| == |keys|
  {
    if keys == [] then []
    else Rules(prefix, keys[..|keys| - 1], codes) + [CssRule(prefix, keys[|keys| - 1], codes[keys[|keys| - 1]])]
  }

  /** Rule i is the rule for key i with its code. */
  lemma {:induction false} RuleAt(prefix: string, keys: seq<string>, codes: map<string, CodeUnit>, i: nat)
    requires forall k :: k in keys ==> k in codes
    requires i < |keys|
    ensures Rules(prefix, keys, codes)[i] == CssRule(prefix, keys[i], codes[keys[i]])
    decreases |keys|
  {
    var init := keys[..|keys| - 1];
    if i < |init| {
      RuleAt(prefix, init, codes, i);
      assert init[i] == keys[i];
    } else {
      assert i == |keys| - 1;
    }
  }

  /** One more key adds its rule at the end. */
  lemma RulesSnoc(prefix: string, keys: seq<string>, codes: map<string, CodeUnit>, i: nat)
    requires forall k :: k in keys ==> k in codes
    requires i < |keys|
    ensures forall k :: k in keys[..i + 1] ==> k in codes
    ensures Rules(prefix, keys[..i + 1], codes) == Rules(prefix, keys[..i], codes) + [CssRule(prefix, keys[i], codes[keys[i]])]
  {
    assert keys[..i + 1][..i] == keys[..i];
  }


  /** `rule` is the rule for `name` under `prefix`, with the 16-bit code it carries. */
  predicate IsRuleFor(rule: string, prefix: string, name: string) {
    match RuleCode(rule)
    case None => false
    case Some(c) => c < 0x1_0000 && rule == CssRule(prefix, name, c)
  }

  /** The two lists grow together: entry i of the rules is the rule for entry i of the names. */
  ghost predicate Lockstep(cssString: seq<string>, cssIconHtml: seq<string>, prefix: string) {
    |cssString| == |cssIconHtml| &&
    forall i :: 0 <= i < |cssString| ==> IsRuleFor(cssString[i], prefix, cssIconHtml[i])
  }

  /** Appending one rule per key, and the keys, keeps the lists in step. */
  lemma AppendKeepsLockstep(cssString: seq<string>, cssIconHtml: seq<string>, prefix: string,
                            keys: seq<string>, codes: map<string, CodeUnit>)
    requires forall k :: k in keys ==> k in codes
    requires Lockstep(cssString, cssIconHtml, prefix)
    ensures Lockstep(cssString + Rules(prefix, keys, codes), cssIconHtml + keys, prefix)
  {
    var rules := Rules(prefix, keys, codes);
    forall i | 0 <= i < |rules|
      ensures IsRuleFor(rules[i], prefix, keys[i])
    {
      RuleAt(prefix, keys, codes, i);
      RuleCodeRoundTrip(prefix, keys[i], codes[keys[i]]);
    }
    var css, html := cssString + rules, cssIconHtml + keys;
    forall i | 0 <= i < |css|
      ensures IsRuleFor(css[i], prefix, html[i])
    {
      if i >= |cssString| {
        assert css[i] == rules[i - |cssString|] && html[i] == keys[i - |cssString|];
      } else {
        assert css[i] == cssString[i] && html[i] == cssIconHtml[i];
      }
    }
  }

  /** The prefix as the rules spell it: `${options.clssaNamePrefix}`, whatever its value. */
  function RulePrefix(o: Options): string {
    Text(o.clssaNamePrefix)
  }

  /** `options.clssaNamePrefix || options.fontName`: every falsy prefix gives way to the font name. */
  function CssTemplatePrefix(o: Options): string {
    if Falsy(o.clssaNamePrefix) then o.fontName else o.clssaNamePrefix.s
  }

  datatype Stage = SvgStage | TtfStage | EotStage | WoffStage | CssStage | HtmlStage

  const AllStages: seq<Stage> := [SvgStage, TtfStage, EotStage, WoffStage, CssStage, HtmlStage]

  /** What the world outside the core yields during one hook run. */
  datatype HookEnv = HookEnv(
    listing: DirListing,        // reading `options.src`
    svgFont: Result<nat>,       // the size of the written font file, or the error of its write stream
    ttf: Result<nat>,           // svg2ttf and the write: byte size, or the error
    eot: Result<nat>,           // ttf2eot and the write
    woff: Result<nat>,          // ttf2woff and the write
    timestamp: int,             // `new Date().getTime()`
    cssRender: Result<string>,  // the CSS template rendered, or the template error
    cssWrite: Option<string>,   // the error of writing the stylesheet, if any
    htmlRender: Result<string>,
    htmlWrite: Option<string>)

  datatype CssTemplateData = CssTemplateData(fontname: string, cssString: string, timestamp: int, prefix: string)

  datatype HtmlTemplateData = HtmlTemplateData(
    prefix: PrefixValue, fontname: string, link: string, cssIconHtml: seq<string>, title: string)

  /** A call of `buildTemplateFile`: the template path (possibly undefined) and its data. */
  datatype RenderRequest<D> = RenderRequest(path: Option<string>, data: D)

  datatype WrittenFile = WrittenFile(path: string, content: string)

  datatype Settled = Resolved | Rejected(reason: string)

  /** The state a hook run reads and changes: the util.js module state and the two lists of `apply`. */
  datatype HookState = HookState(registry: Registry, cssString: seq<string>, cssIconHtml: seq<string>)

  /** Everything one hook run does: new state, stages entered, glyphs fed, reports printed, renders asked for, files written, how the promise settles. */
  datatype HookRun = HookRun(
    after: HookState,
    ran: seq<Stage>,
    glyphs: seq<Glyph>,
    reports: seq<FileReport>,
    cssRequest: Option<RenderRequest<CssTemplateData>>,
    htmlRequest: Option<RenderRequest<HtmlTemplateData>>,
    written: seq<WrittenFile>,
    settled: Settled)

  /** The listing step of `createSVG`: `filterSvgFiles(options.src)`. */
  function ListSvgFiles(src: string, listing: DirListing): Result<seq<string>> {
    match listing
    case Entries(es) => Ok(SvgFiles(src, es))
    case Falsy => Err(EmptyFolderMessage(src))
    case Unreadable(e) => Err(e)
  }

  /** A run before any stage: nothing entered, nothing printed. */
  function Start(s: HookState): HookRun {
    HookRun(s, [], [], [], None, None, [], Resolved)
  }

  function Enter(run: HookRun, st: Stage): HookRun {
    run.(ran := run.ran + [st])
  }

  function Fail(run: HookRun, reason: string): HookRun {
    run.(settled := Rejected(reason))
  }

  /**
   * The svg stage: list the folder, feed every glyph (allocating its code)
   * and wait for the font stream; on success the next callback prints the
   * report and appends one rule and one name per key of the shared map.
   */
  function SvgStep(o: Options, env: HookEnv, run: HookRun): (r: HookRun)
    requires RegistryValid(run.after.registry)
    ensures RegistryValid(r.after.registry)
  {
    var s := run.after;
    match ListSvgFiles(o.src, env.listing)
    case Err(e) => Fail(run, e)
    case Ok(paths) =>
      WriteGlyphsKeepsRegistry(s.registry, paths);
      var fed := WriteGlyphs(s.registry, paths);
      var reg := fed.registry;
      match env.svgFont
      case Err(e) => Fail(run.(after := s.(registry := reg), glyphs := fed.glyphs), e)
      case Ok(size) =>
        run.(after := HookState(reg, s.cssString + Rules(RulePrefix(o), reg.order, reg.codes), s.cssIconHtml + reg.order),
             glyphs := fed.glyphs,
             reports := run.reports + [FontReport(o.dist, o.fontName, ".svg", size)])
  }

  /** The ttf, eot and woff stages: the converter's outcome, then the report. */
  function FontStep(o: Options, run: HookRun, ext: string, outcome: Result<nat>): HookRun {
    match outcome
    case Err(e) => Fail(run, e)
    case Ok(size) => run.(reports := run.reports + [FontReport(o.dist, o.fontName, ext, size)])
  }

  function CssRequest(o: Options, env: HookEnv, s: HookState): RenderRequest<CssTemplateData> {
    RenderRequest(o.template.css, CssTemplateData(o.fontName, Concat(s.cssString), env.timestamp, CssTemplatePrefix(o)))
  }

  function HtmlRequest(o: Options, s: HookState): RenderRequest<HtmlTemplateData> {
    RenderRequest(o.template.html, HtmlTemplateData(o.clssaNamePrefix, o.fontName, o.fileName, s.cssIconHtml, o.fontName))
  }

  /** The css stage: render, print the report, then write; a failed write comes after its report. */
  function CssStep(o: Options, env: HookEnv, run: HookRun): HookRun {
    var run := run.(cssRequest := Some(CssRequest(o, env, run.after)));
    match env.cssRender
    case Err(e) => Fail(run, e)
    case Ok(css) =>
      var path := Join(o.dist, o.fileName);
      var run := run.(reports := run.reports + [FileReport(path, o.fileName, |css|)]);
      match env.cssWrite
      case Some(e) => Fail(run, e)
      case None => run.(written := run.written + [WrittenFile(path, css)])
  }

  /** The html stage, shaped like the css stage. */
  function HtmlStep(o: Options, env: HookEnv, run: HookRun): HookRun {
    var run := run.(htmlRequest := Some(HtmlRequest(o, run.after)));
    match env.htmlRender
    case Err(e) => Fail(run, e)
    case Ok(html) =>
      var path := Join(o.dist, o.htmlFileName);
      var run := run.(reports := run.reports + [FileReport(path, o.htmlFileName, |html|)]);
      match env.htmlWrite
      case Some(e) => Fail(run, e)
      case None => run.(written := run.written + [WrittenFile(path, html)])
  }

  function Step(o: Options, env: HookEnv, run: HookRun, st: Stage): (r: HookRun)
    requires RegistryValid(run.after.registry)
    ensures RegistryValid(r.after.registry)
  {
    match st
    case SvgStage => SvgStep(o, env, run)
    case TtfStage => FontStep(o, run, ".ttf", env.ttf)
    case EotStage => FontStep(o, run, ".eot", env.eot)
    case WoffStage => FontStep(o, run, ".woff", env.woff)
    case CssStage => CssStep(o, env, run)
    case HtmlStage => HtmlStep(o, env, run)
  }

  /** A stage callback of the chain keeps the registry invariant whatever run it is given. */
  ghost predicate StepsKeepRegistry(step: (HookRun, Stage) --> HookRun) {
    forall r: HookRun, st: Stage :: RegistryValid(r.after.registry) ==>
      step.requires(r, st) && RegistryValid(step(r, st).after.registry)
  }

  /** The stage callbacks of one plugin in one environment. */
  function StepOf(o: Options, env: HookEnv): (step: (HookRun, Stage) --> HookRun)
    ensures StepsKeepRegistry(step)
  {
    (r: HookRun, st: Stage) requires RegistryValid(r.after.registry) => Step(o, env, r, st)
  }

  /** The promise chain from stage `k` on: each stage runs only if everything before it resolved. */
  function Advance(step: (HookRun, Stage) --> HookRun, run: HookRun, k: nat): HookRun
    requires k <= |AllStages| && RegistryValid(run.after.registry) && StepsKeepRegistry(step)
    decreases |AllStages| - k
  {
    if k == |AllStages| || run.settled.Rejected? then run
    else Advance(step, step(Enter(run, AllStages[k]), AllStages[k]), k + 1)
  }

  /** One run of the `run` hook. */
  function Hook(s: HookState, o: Options, env: HookEnv): HookRun
    requires RegistryValid(s.registry)
  {
    Advance(StepOf(o, env), Start(s), 0)
  }

  /** Whether a stage's own outside step fails, whatever the other stages do. */
  predicate StageFails(env: HookEnv, st: Stage) {
    match st
    case SvgStage => !env.listing.Entries? || env.svgFont.Err?
    case TtfStage => env.ttf.Err?
    case EotStage => env.eot.Err?
    case WoffStage => env.woff.Err?
    case CssStage => env.cssRender.Err? || env.cssWrite.Some?
    case HtmlStage => env.htmlRender.Err? || env.htmlWrite.Some?
  }

  /** The stages from `k` on that a fail-fast chain enters: up to and including the first that fails. */
  function Entered(env: HookEnv, k: nat): seq<Stage>
    requires k <= |AllStages|
    decreases |AllStages| - k
  {
    if k == |AllStages| then []
    else if StageFails(env, AllStages[k]) then [AllStages[k]]
    else [AllStages[k]] + Entered(env, k + 1)
  }

  /** The reason a failing stage rejects with. */
  function FailureReason(o: Options, env: HookEnv, st: Stage): string {
    match st
    case SvgStage =>
      (match env.listing
       case Falsy => EmptyFolderMessage(o.src)
       case Unreadable(e) => e
       case Entries(_) => if env.svgFont.Err? then env.svgFont.error else "")
    case TtfStage => if env.ttf.Err? then env.ttf.error else ""
    case EotStage => if env.eot.Err? then env.eot.error else ""
    case WoffStage => if env.woff.Err? then env.woff.error else ""
    case CssStage =>
      if env.cssRender.Err? then env.cssRender.error else if env.cssWrite.Some? then env.cssWrite.value else ""
    case HtmlStage =>
      if env.htmlRender.Err? then env.htmlRender.error else if env.htmlWrite.Some? then env.htmlWrite.value else ""
  }

  /** The file name a stage reports. */
  function StageFileName(o: Options, st: Stage): string {
    match st
    case SvgStage => o.fontName + ".svg"
    case TtfStage => o.fontName + ".ttf"
    case EotStage => o.fontName + ".eot"
    case WoffStage => o.fontName + ".woff"
    case CssStage => o.fileName
    case HtmlStage => o.htmlFileName
  }

  /** A stage entered after a resolved one rejects exactly when its own step fails, with that step's error. */
  lemma StepSettles(o: Options, env: HookEnv, run: HookRun, st: Stage)
    requires RegistryValid(run.after.registry) && run.settled.Resolved?
    ensures var r := Step(o, env, run, st);
      r.ran == run.ran &&
      (r.settled.Rejected? <==> StageFails(env, st)) &&
      (r.settled.Rejected? ==> r.settled.reason == FailureReason(o, env, st))
  {
  }

  /** The stages `Entered` lists are the consecutive stages starting at `k`. */
  lemma {:induction false} EnteredInOrder(env: HookEnv, k: nat)
    requires k <= |AllStages|
    ensures k + |Entered(env, k)| <= |AllStages|
    ensures Entered(env, k) == AllStages[k..k + |Entered(env, k)|]
    ensures (forall j :: k <= j < |AllStages| ==> !StageFails(env, AllStages[j])) ==> |Entered(env, k)| == |AllStages| - k
    decreases |AllStages| - k
  {
    if k < |AllStages| && !StageFails(env, AllStages[k]) {
      EnteredInOrder(env, k + 1);
    }
  }

  /** Each callback leaves the stages entered as they were and, on a resolved run, rejects exactly when its stage's own step fails, with that step's error. */
  ghost predicate StepsSettle(step: (HookRun, Stage) --> HookRun, o: Options, env: HookEnv) {
    StepsKeepRegistry(step) &&
    forall r: HookRun, st: Stage :: RegistryValid(r.after.registry) && r.settled.Resolved? ==>
      step(r, st).ran == r.ran &&
      (step(r, st).settled.Rejected? <==> StageFails(env, st)) &&
      (step(r, st).settled.Rejected? ==> step(r, st).settled.reason == FailureReason(o, env, st))
  }

  lemma StepOfSettles(o: Options, env: HookEnv)
    ensures StepsSettle(StepOf(o, env), o, env)
  {
    var step := StepOf(o, env);
    forall r: HookRun, st: Stage | RegistryValid(r.after.registry) && r.settled.Resolved?
      ensures step(r, st).ran == r.ran &&
        (step(r, st).settled.Rejected? <==> StageFails(env, st)) &&
        (step(r, st).settled.Rejected? ==> step(r, st).settled.reason == FailureReason(o, env, st))
    {
      StepSettles(o, env, r, st);
    }
  }

  /** From stage `k` on, a resolved run enters exactly the stages `Entered` lists. */
  lemma {:induction false} AdvanceRan(step: (HookRun, Stage) --> HookRun, o: Options, env: HookEnv, run: HookRun, k: nat)
    requires k <= |AllStages| && RegistryValid(run.after.registry) && run.settled.Resolved? && StepsSettle(step, o, env)
    ensures Advance(step, run, k).ran == run.ran + Entered(env, k)
    decreases |AllStages| - k
  {
    if k < |AllStages| {
      var st := AllStages[k];
      var next := step(Enter(run, st), st);
      if !StageFails(env, st) {
        AdvanceRan(step, o, env, next, k + 1);
        AppendAssoc(run.ran, [st], Entered(env, k + 1));
      }
    }
  }

  /** From stage `k` on, a resolved run stays resolved exactly when no later stage fails. */
  lemma {:induction false} AdvanceResolves(step: (HookRun, Stage) --> HookRun, o: Options, env: HookEnv, run: HookRun, k: nat)
    requires k <= |AllStages| && RegistryValid(run.after.registry) && run.settled.Resolved? && StepsSettle(step, o, env)
    ensures Advance(step, run, k).settled.Resolved? <==>
      forall j :: k <= j < |AllStages| ==> !StageFails(env, AllStages[j])
    decreases |AllStages| - k
  {
    if k < |AllStages| {
      var st := AllStages[k];
      var next := step(Enter(run, st), st);
      if !StageFails(env, st) {
        AdvanceResolves(step, o, env, next, k + 1);
        assert (forall j :: k <= j < |AllStages| ==> !StageFails(env, AllStages[j])) <==>
               (forall j :: k + 1 <= j < |AllStages| ==> !StageFails(env, AllStages[j]));
      }
    }
  }

  /** A rejected run rejected with the error of the last stage it entered, which failed. */
  predicate RejectedByLast(o: Options, env: HookEnv, run: HookRun) {
    run.settled.Rejected? ==>
      run.ran != [] && StageFails(env, run.ran[|run.ran| - 1]) &&
      run.settled.reason == FailureReason(o, env, run.ran[|run.ran| - 1])
  }

  lemma {:induction false} AdvanceRejects(step: (HookRun, Stage) --> HookRun, o: Options, env: HookEnv, run: HookRun, k: nat)
    requires k <= |AllStages| && RegistryValid(run.after.registry) && RejectedByLast(o, env, run) && StepsSettle(step, o, env)
    ensures RejectedByLast(o, env, Advance(step, run, k))
    decreases |AllStages| - k
  {
    if k < |AllStages| && run.settled.Resolved? {
      var st := AllStages[k];
      var next := step(Enter(run, st), st);
      assert next.ran == run.ran + [st];
      assert RejectedByLast(o, env, next);
      AdvanceRejects(step, o, env, next, k + 1);
    }
  }

  /** The fail-fast chain from a fresh run, for any callbacks that settle as the stages' own steps do. */
  lemma AdvanceFailFast(step: (HookRun, Stage) --> HookRun, o: Options, env: HookEnv, s: HookState)
    requires RegistryValid(s.registry) && StepsSettle(step, o, env)
    ensures var run := Advance(step, Start(s), 0);
      run.ran == Entered(env, 0) && IsPrefix(run.ran, AllStages) && run.ran != [] &&
      (run.settled.Resolved? <==> forall st :: st in AllStages ==> !StageFails(env, st)) &&
      (run.settled.Resolved? ==> run.ran == AllStages) &&
      RejectedByLast(o, env, run)
  {
    var run := Advance(step, Start(s), 0);
    assert run.ran == Entered(env, 0) by {
      AdvanceRan(step, o, env, Start(s), 0);
    }
    assert run.settled.Resolved? <==> forall j :: 0 <= j < |AllStages| ==> !StageFails(env, AllStages[j]) by {
      AdvanceResolves(step, o, env, Start(s), 0);
    }
    assert RejectedByLast(o, env, run) by {
      AdvanceRejects(step, o, env, Start(s), 0);
    }
    EnteredInOrder(env, 0);
    assert Entered(env, 0) != [];
    assert (forall j :: 0 <= j < |AllStages| ==> !StageFails(env, AllStages[j])) <==> forall st :: st in AllStages ==> !StageFails(env, st);
  }

  /**
   * Fail-fast order: a run enters the stages svg, ttf, eot, woff, css, html
   * in that order, stops at the first whose step fails and rejects with that
   * step's error; it resolves exactly when no stage fails.
   */
  lemma HookFailFast(s: HookState, o: Options, env: HookEnv)
    requires RegistryValid(s.registry)
    ensures var run := Hook(s, o, env);
      run.ran == Entered(env, 0) && IsPrefix(run.ran, AllStages) && run.ran != [] &&
      (run.settled.Resolved? <==> forall st :: st in AllStages ==> !StageFails(env, st)) &&
      (run.settled.Resolved? ==> run.ran == AllStages) &&
      (run.settled.Rejected? ==>
         StageFails(env, run.ran[|run.ran| - 1]) &&
         run.settled.reason == FailureReason(o, env, run.ran[|run.ran| - 1]))
  {
    StepOfSettles(o, env);
    AdvanceFailFast(StepOf(o, env), o, env, s);
  }

  /** Every printed report names the file of the stage at the same position; only the last stage may lack one. */
  ghost predicate ReportsMatch(o: Options, run: HookRun) {
    |run.ran| - 1 <= |run.reports| <= |run.ran| &&
    (run.settled.Resolved? ==> |run.reports| == |run.ran|) &&
    (forall i :: 0 <= i < |run.reports| ==> run.reports[i].fileName == StageFileName(o, run.ran[i])) &&
    forall i :: 0 <= i < |run.reports| ==> run.reports[i].path == Join(o.dist, run.reports[i].fileName)
  }

  /** A stage prints at most one report, naming its own file under `dist`, and settles as resolved only after printing it. */
  lemma StepAddsReport(o: Options, env: HookEnv, run: HookRun, st: Stage)
    requires RegistryValid(run.after.registry)
    ensures var r := Step(o, env, run, st);
      r.ran == run.ran && IsPrefix(run.reports, r.reports) && |r.reports| <= |run.reports| + 1 &&
      (r.settled.Resolved? && run.settled.Resolved? ==> |r.reports| == |run.reports| + 1) &&
      (|r.reports| == |run.reports| + 1 ==>
         r.reports[|run.reports|].fileName == StageFileName(o, st) &&
         r.reports[|run.reports|].path == Join(o.dist, StageFileName(o, st)))
  {
  }

  lemma StepReports(o: Options, env: HookEnv, run: HookRun, st: Stage)
    requires RegistryValid(run.after.registry) && run.settled.Resolved? && ReportsMatch(o, run)
    ensures ReportsMatch(o, Step(o, env, Enter(run, st), st))
  {
    var e := Enter(run, st);
    StepAddsReport(o, env, e, st);
    var r := Step(o, env, e, st);
    assert |e.reports| == |run.ran| == |e.ran| - 1;
    forall i | 0 <= i < |r.reports|
      ensures r.reports[i].fileName == StageFileName(o, r.ran[i])
      ensures r.reports[i].path == Join(o.dist, r.reports[i].fileName)
    {
      if i < |run.reports| {
        assert r.reports[i] == run.reports[i] && r.ran[i] == run.ran[i];
      }
    }
  }

  lemma {:induction false} AdvanceReports(o: Options, env: HookEnv, run: HookRun, k: nat)
    requires k <= |AllStages| && RegistryValid(run.after.registry) && ReportsMatch(o, run)
    ensures ReportsMatch(o, Advance(StepOf(o, env), run, k))
    decreases |AllStages| - k
  {
    if k < |AllStages| && run.settled.Resolved? {
      var st := AllStages[k];
      StepReports(o, env, run, st);
      AdvanceReports(o, env, Step(o, env, Enter(run, st), st), k + 1);
    }
  }

  /**
   * Each stage that resolved printed one report naming its file and its path
   * under `dist`, in stage order; a stage that failed printed none, except the css and html stages,
   * which print before writing.
   */
  lemma HookReports(s: HookState, o: Options, env: HookEnv)
    requires RegistryValid(s.registry)
    ensures var run := Hook(s, o, env);
      |run.ran| - 1 <= |run.reports| <= |run.ran| &&
      (run.settled.Resolved? ==> |run.reports| == |AllStages|) &&
      (forall i :: 0 <= i < |run.reports| ==> run.reports[i].fileName == StageFileName(o, run.ran[i])) &&
      forall i :: 0 <= i < |run.reports| ==> run.reports[i].path == Join(o.dist, run.reports[i].fileName)
  {
    AdvanceReports(o, env, Start(s), 0);
    HookFailFast(s, o, env);
  }

  /** The run right after the svg stage. */
  function SvgRun(s: HookState, o: Options, env: HookEnv): HookRun
    requires RegistryValid(s.registry)
  {
    Step(o, env, Enter(Start(s), SvgStage), SvgStage)
  }

  /** What the svg stage leaves behind: nothing when listing failed, else the feed of the listed paths. */
  lemma SvgRunFeeds(s: HookState, o: Options, env: HookEnv)
    requires RegistryValid(s.registry)
    ensures var sr := SvgRun(s, o, env);
      match ListSvgFiles(o.src, env.listing)
      case Err(_) => sr.glyphs == [] && sr.after == s
      case Ok(paths) =>
        sr.glyphs == WriteGlyphs(s.registry, paths).glyphs &&
        sr.after.registry == WriteGlyphs(s.registry, paths).registry
  {
  }

  /** The lists the svg stage leaves: unchanged when it fails, else one rule and one name appended per key of the map. */
  lemma SvgRunLists(s: HookState, o: Options, env: HookEnv)
    requires RegistryValid(s.registry)
    ensures var a := SvgRun(s, o, env).after;
      (StageFails(env, SvgStage) ==> a.cssString == s.cssString && a.cssIconHtml == s.cssIconHtml) &&
      (!StageFails(env, SvgStage) ==>
         a.cssIconHtml == s.cssIconHtml + a.registry.order &&
         a.cssString == s.cssString + Rules(RulePrefix(o), a.registry.order, a.registry.codes))
  {
  }

  /** When the svg stage resolves, a run's glyphs and new state are those of feeding the listed paths. */
  lemma HookFeedsListing(s: HookState, o: Options, env: HookEnv, paths: seq<string>)
    requires RegistryValid(s.registry)
    requires ListSvgFiles(o.src, env.listing) == Ok(paths) && env.svgFont.Ok?
    ensures var run := Hook(s, o, env);
      var reg := WriteGlyphs(s.registry, paths).registry;
      run.glyphs == WriteGlyphs(s.registry, paths).glyphs &&
      run.after == HookState(reg, s.cssString + Rules(RulePrefix(o), reg.order, reg.codes), s.cssIconHtml + reg.order)
  {
    HookStateIsSvgStage(s, o, env);
    SvgRunFeeds(s, o, env);
    SvgRunLists(s, o, env);
  }

  /** The three ways the svg stage ends; a rejected svg stage is the whole run. */
  lemma SvgStepCases(s: HookState, o: Options, env: HookEnv)
    requires RegistryValid(s.registry)
    ensures var r0 := Enter(Start(s), SvgStage);
      var r := SvgRun(s, o, env);
      match ListSvgFiles(o.src, env.listing)
      case Err(e) => r == Fail(r0, e) && Hook(s, o, env) == r
      case Ok(paths) =>
        var fed := WriteGlyphs(s.registry, paths);
        match env.svgFont
        case Err(e) => r == Fail(r0.(after := s.(registry := fed.registry), glyphs := fed.glyphs), e) && Hook(s, o, env) == r
        case Ok(size) =>
          r == r0.(after := HookState(fed.registry,
                      s.cssString + Rules(RulePrefix(o), fed.registry.order, fed.registry.codes),
                      s.cssIconHtml + fed.registry.order),
                   glyphs := fed.glyphs,
                   reports := [FontReport(o.dist, o.fontName, ".svg", size)])
  {
    HookStateIsSvgStage(s, o, env);
  }

  /** The stages after svg touch neither the state nor the glyphs. */
  lemma StepKeepsState(o: Options, env: HookEnv, run: HookRun, st: Stage)
    requires RegistryValid(run.after.registry) && st != SvgStage
    ensures Step(o, env, run, st).after == run.after
    ensures Step(o, env, run, st).glyphs == run.glyphs
  {
  }

  lemma {:induction false} AdvanceKeepsState(o: Options, env: HookEnv, run: HookRun, k: nat)
    requires 1 <= k <= |AllStages| && RegistryValid(run.after.registry)
    ensures Advance(StepOf(o, env), run, k).after == run.after
    ensures Advance(StepOf(o, env), run, k).glyphs == run.glyphs
    decreases |AllStages| - k
  {
    if k < |AllStages| && run.settled.Resolved? {
      var st := AllStages[k];
      var e := Enter(run, st);
      StepKeepsState(o, env, e, st);
      var next := Step(o, env, e, st);
      AdvanceKeepsState(o, env, next, k + 1);
    }
  }

  /** Only the svg stage changes the state or feeds glyphs; the later stages produce output only. */
  lemma HookStateIsSvgStage(s: HookState, o: Options, env: HookEnv)
    requires RegistryValid(s.registry)
    ensures Hook(s, o, env) == Advance(StepOf(o, env), SvgRun(s, o, env), 1)
    ensures Hook(s, o, env).after == SvgRun(s, o, env).after
    ensures Hook(s, o, env).glyphs == SvgRun(s, o, env).glyphs
  {
    AdvanceKeepsState(o, env, SvgRun(s, o, env), 1);
  }

  /**
   * A run never removes anything: both lists, the registry's keys and its
   * counter only grow, and the lists grow by the same amount.
   */
  lemma HookOnlyAppends(s: HookState, o: Options, env: HookEnv)
    requires RegistryValid(s.registry)
    ensures var a := Hook(s, o, env).after;
      RegistryValid(a.registry) &&
      IsPrefix(s.cssString, a.cssString) && IsPrefix(s.cssIconHtml, a.cssIconHtml) &&
      IsPrefix(s.registry.order, a.registry.order) && s.registry.next <= a.registry.next &&
      |a.cssString| - |s.cssString| == |a.cssIconHtml| - |s.cssIconHtml|
  {
    HookStateIsSvgStage(s, o, env);
    SvgRunOnlyAppends(s, o, env);
  }

  /** The svg stage only appends: what `HookOnlyAppends` states, for the run right after it. */
  lemma SvgRunOnlyAppends(s: HookState, o: Options, env: HookEnv)
    requires RegistryValid(s.registry)
    ensures var a := SvgRun(s, o, env).after;
      RegistryValid(a.registry) &&
      IsPrefix(s.cssString, a.cssString) && IsPrefix(s.cssIconHtml, a.cssIconHtml) &&
      IsPrefix(s.registry.order, a.registry.order) && s.registry.next <= a.registry.next &&
      |a.cssString| - |s.cssString| == |a.cssIconHtml| - |s.cssIconHtml|
  {
    SvgRunFeeds(s, o, env);
    SvgRunLists(s, o, env);
    match ListSvgFiles(o.src, env.listing)
    case Err(_) =>
    case Ok(paths) =>
      WriteGlyphsKeepsRegistry(s.registry, paths);
  }

  /**
   * Once the svg stage resolves, the run appends to the icon list every key of
   * the shared map (earlier runs' names too) and one rule per key; the lists
   * stay in step. When it fails, both lists are as they were.
   */
  lemma HookAppendsOneRulePerKey(s: HookState, o: Options, env: HookEnv)
    requires RegistryValid(s.registry)
    requires Lockstep(s.cssString, s.cssIconHtml, RulePrefix(o))
    ensures var a := Hook(s, o, env).after;
      Lockstep(a.cssString, a.cssIconHtml, RulePrefix(o)) &&
      (!StageFails(env, SvgStage) ==>
         a.cssIconHtml == s.cssIconHtml + a.registry.order &&
         a.cssString == s.cssString + Rules(RulePrefix(o), a.registry.order, a.registry.codes) &&
         IsPrefix(s.registry.order, a.registry.order)) &&
      (StageFails(env, SvgStage) ==> a.cssString == s.cssString && a.cssIconHtml == s.cssIconHtml)
  {
    HookStateIsSvgStage(s, o, env);
    SvgRunLists(s, o, env);
    HookOnlyAppends(s, o, env);
    var a := SvgRun(s, o, env).after;
    if !StageFails(env, SvgStage) {
      AppendKeepsLockstep(s.cssString, s.cssIconHtml, RulePrefix(o), a.registry.order, a.registry.codes);
    }
  }

  /**
   * The glyphs of a run follow the listing: glyph i is the i-th ".svg" entry
   * without its extension and carries code `next + i` of the shared counter,
   * which ends the run advanced by the number of glyphs.
   */
  lemma HookGlyphs(s: HookState, o: Options, env: HookEnv)
    requires RegistryValid(s.registry)
    requires o.src != "" && env.listing.Entries? && SeparatorFree(env.listing.entries)
    ensures var run := Hook(s, o, env);
      var names := SvgNames(env.listing.entries);
      |run.glyphs| == |names| &&
      run.after.registry.next == s.registry.next + |names| &&
      forall i :: 0 <= i < |names| ==>
        run.glyphs[i] == Glyph(names[i][..|names[i]| - 4], [FromCharCode(s.registry.next + i)])
  {
    HookStateIsSvgStage(s, o, env);
    SvgRunFeeds(s, o, env);
    var names := SvgNames(env.listing.entries);
    SvgFilesAreSvgNames(o.src, env.listing.entries);
    var paths := SvgFiles(o.src, env.listing.entries);
    assert ListSvgFiles(o.src, env.listing) == Ok(paths);
    var fed := WriteGlyphs(s.registry, paths);
    var run := SvgRun(s, o, env);
    assert run.glyphs == fed.glyphs && run.after.registry == fed.registry;
    forall i | 0 <= i < |names|
      ensures run.glyphs[i] == Glyph(names[i][..|names[i]| - 4], [FromCharCode(s.registry.next + i)])
    {
      SvgNameIsEntry(env.listing.entries, i);
      BaseNameOfJoin(o.src, names[i]);
      GlyphAt(s.registry, paths, i);
    }
  }

  /** Every ".svg" name comes from a string entry of the listing, so has no separator. */
  lemma {:induction false} SvgNameIsEntry(entries: seq<Entry>, i: nat)
    requires SeparatorFree(entries) && i < |SvgNames(entries)|
    ensures Name(SvgNames(entries)[i]) in entries
    ensures Sep !in SvgNames(entries)[i]
    decreases |entries|
  {
    var init := entries[..|entries| - 1];
    assert SeparatorFree(init) by {
      forall j | 0 <= j < |init| && init[j].Name? ensures Sep !in init[j].name {
        assert init[j] == entries[j];
      }
    }
    if i < |SvgNames(init)| {
      SvgNameIsEntry(init, i);
      assert entries == init + [entries[|entries| - 1]];
    } else {
      assert entries[|entries| - 1] in entries;
    }
  }

  lemma {:induction false} AdvanceIgnoresStart(o: Options, env: HookEnv, run: HookRun, k: nat, start: int)
    requires k <= |AllStages| && RegistryValid(run.after.registry)
    ensures Advance(StepOf(o.(unicodeStart := start), env), run, k) == Advance(StepOf(o, env), run, k)
    decreases |AllStages| - k
  {
    if k < |AllStages| && run.settled.Resolved? {
      var st := AllStages[k];
      assert Step(o.(unicodeStart := start), env, Enter(run, st), st) == Step(o, env, Enter(run, st), st);
      AdvanceIgnoresStart(o, env, Step(o, env, Enter(run, st), st), k + 1, start);
    }
  }

  /** `options.unicodeStart` reaches nothing: two runs that differ only in it do the same. */
  lemma UnicodeStartIgnored(s: HookState, o: Options, env: HookEnv, start: int)
    requires RegistryValid(s.registry)
    ensures Hook(s, o.(unicodeStart := start), env) == Hook(s, o, env)
  {
    AdvanceIgnoresStart(o, env, Start(s), 0, start);
  }

  /**
   * Glyph i of a run carries code `next + i` of the shared counter, and the
   * counter ends the run advanced by the number of glyphs, which is the
   * number of files the listing kept.
   */
  lemma HookCounter(s: HookState, o: Options, env: HookEnv)
    requires RegistryValid(s.registry)
    ensures var run := Hook(s, o, env);
      run.after.registry.next == s.registry.next + |run.glyphs| &&
      (env.listing.Entries? ==> |run.glyphs| == |SvgFiles(o.src, env.listing.entries)|) &&
      forall i :: 0 <= i < |run.glyphs| ==> run.glyphs[i].unicode == [FromCharCode(s.registry.next + i)]
  {
    HookStateIsSvgStage(s, o, env);
    SvgRunFeeds(s, o, env);
    var run := SvgRun(s, o, env);
    match ListSvgFiles(o.src, env.listing)
    case Err(_) =>
    case Ok(paths) =>
      forall i | 0 <= i < |run.glyphs| ensures run.glyphs[i].unicode == [FromCharCode(s.registry.next + i)] {
        GlyphAt(s.registry, paths, i);
      }
  }

  /**
   * The counter is never reset: a second run's glyphs continue where the
   * first run's stopped.
   */
  lemma SecondRunContinues(s: HookState, o: Options, env1: HookEnv, env2: HookEnv)
    requires RegistryValid(s.registry)
    requires env1.listing.Entries?
    ensures var first := Hook(s, o, env1);
      var n := |SvgFiles(o.src, env1.listing.entries)|;
      RegistryValid(first.after.registry) &&
      forall i :: 0 <= i < |Hook(first.after, o, env2).glyphs| ==>
        Hook(first.after, o, env2).glyphs[i].unicode == [FromCharCode(s.registry.next + n + i)]
  {
    HookCounter(s, o, env1);
    HookOnlyAppends(s, o, env1);
    HookCounter(Hook(s, o, env1).after, o, env2);
  }

  /**
   * An empty folder is not an error: an empty listing feeds no glyph, leaves
   * the counter where it was, and the svg stage fails only if the font stream does.
   */
  lemma EmptyFolderStillBuilds(s: HookState, o: Options, env: HookEnv)
    requires RegistryValid(s.registry)
    requires env.listing == Entries([])
    ensures var run := Hook(s, o, env);
      run.glyphs == [] && run.after.registry == s.registry &&
      (StageFails(env, SvgStage) <==> env.svgFont.Err?)
  {
    HookStateIsSvgStage(s, o, env);
  }

  /** Each render request carries the data built from the state it was asked in, and is asked for exactly when its stage was entered. */
  ghost predicate RequestsMatch(o: Options, env: HookEnv, run: HookRun) {
    (run.cssRequest.Some? <==> CssStage in run.ran) &&
    (run.htmlRequest.Some? <==> HtmlStage in run.ran) &&
    (run.cssRequest.Some? ==> run.cssRequest.value == CssRequest(o, env, run.after)) &&
    (run.htmlRequest.Some? ==> run.htmlRequest.value == HtmlRequest(o, run.after))
  }

  /** A stage after svg asks for its own render, if any, from the unchanged state, and enters only itself. */
  lemma StepRequests(o: Options, env: HookEnv, run: HookRun, st: Stage)
    requires RegistryValid(run.after.registry) && run.settled.Resolved? && RequestsMatch(o, env, run)
    requires st != SvgStage && st !in run.ran
    ensures var next := Step(o, env, Enter(run, st), st);
      next.ran == run.ran + [st] && RequestsMatch(o, env, next)
  {
    var e := Enter(run, st);
    StepKeepsState(o, env, e, st);
    var next := Step(o, env, e, st);
    if st == CssStage {
      assert next.cssRequest == Some(CssRequest(o, env, run.after)) && next.htmlRequest == run.htmlRequest;
    } else if st == HtmlStage {
      assert next.htmlRequest == Some(HtmlRequest(o, run.after)) && next.cssRequest == run.cssRequest;
    } else {
      assert next.cssRequest == run.cssRequest && next.htmlRequest == run.htmlRequest;
    }
  }

  lemma {:induction false} AdvanceRequests(o: Options, env: HookEnv, run: HookRun, k: nat)
    requires 1 <= k <= |AllStages| && RegistryValid(run.after.registry) && RequestsMatch(o, env, run)
    requires forall j :: k <= j < |AllStages| ==> AllStages[j] !in run.ran
    ensures RequestsMatch(o, env, Advance(StepOf(o, env), run, k))
    decreases |AllStages| - k
  {
    if k < |AllStages| && run.settled.Resolved? {
      var st := AllStages[k];
      StepRequests(o, env, run, st);
      var next := Step(o, env, Enter(run, st), st);
      forall j | k + 1 <= j < |AllStages| ensures AllStages[j] !in next.ran {
        assert AllStages[j] != st;
      }
      AdvanceRequests(o, env, next, k + 1);
    }
  }

  /**
   * What the templates receive: the stylesheet data has the rules joined, the
   * font name as family and the prefix falling back to the font name when
   * `clssaNamePrefix` is falsy; the page data has `clssaNamePrefix` verbatim,
   * the icon list, the stylesheet's file name as link and the font name as
   * title. Each is asked for exactly when its stage is entered.
   */
  lemma TemplateData(s: HookState, o: Options, env: HookEnv)
    requires RegistryValid(s.registry)
    ensures var run := Hook(s, o, env);
      (run.cssRequest.Some? <==> CssStage in run.ran) &&
      (run.htmlRequest.Some? <==> HtmlStage in run.ran) &&
      (run.cssRequest.Some? ==>
         run.cssRequest.value == RenderRequest(o.template.css,
           CssTemplateData(o.fontName, Concat(run.after.cssString), env.timestamp,
                           if Falsy(o.clssaNamePrefix) then o.fontName else Text(o.clssaNamePrefix)))) &&
      (run.htmlRequest.Some? ==>
         run.htmlRequest.value == RenderRequest(o.template.html,
           HtmlTemplateData(o.clssaNamePrefix, o.fontName, o.fileName, run.after.cssIconHtml, o.fontName)))
  {
    HookStateIsSvgStage(s, o, env);
    var r := SvgRun(s, o, env);
    assert r.ran == [SvgStage];
    AdvanceRequests(o, env, r, 1);
  }

  /** The stylesheet as it lands in `dist`: present only when both its render and its write succeed. */
  function CssOutput(o: Options, env: HookEnv): seq<WrittenFile> {
    if env.cssRender.Ok? && env.cssWrite.None? then [WrittenFile(Join(o.dist, o.fileName), env.cssRender.value)] else []
  }

  /** The page as it lands in `dist`: present only when both its render and its write succeed. */
  function HtmlOutput(o: Options, env: HookEnv): seq<WrittenFile> {
    if env.htmlRender.Ok? && env.htmlWrite.None? then [WrittenFile(Join(o.dist, o.htmlFileName), env.htmlRender.value)] else []
  }

  /** The files the entered stages leave in `dist`, stylesheet before page. */
  function Outputs(o: Options, env: HookEnv, ran: seq<Stage>): seq<WrittenFile> {
    (if CssStage in ran then CssOutput(o, env) else []) + (if HtmlStage in ran then HtmlOutput(o, env) else [])
  }

  ghost predicate WrittenMatch(o: Options, env: HookEnv, run: HookRun) {
    run.written == Outputs(o, env, run.ran)
  }

  /** A stage after svg writes at most its own file, after every file written before it. */
  lemma StepWrites(o: Options, env: HookEnv, run: HookRun, st: Stage)
    requires RegistryValid(run.after.registry) && run.settled.Resolved? && WrittenMatch(o, env, run)
    requires st != SvgStage && st !in run.ran && (st == CssStage ==> HtmlStage !in run.ran)
    ensures var next := Step(o, env, Enter(run, st), st);
      next.ran == run.ran + [st] && WrittenMatch(o, env, next)
  {
    var e := Enter(run, st);
    StepKeepsState(o, env, e, st);
    var next := Step(o, env, e, st);
    if st == CssStage {
      assert run.written == [] && next.written == CssOutput(o, env);
    } else if st == HtmlStage {
      assert next.written == run.written + HtmlOutput(o, env);
    } else {
      assert next.written == run.written;
    }
  }

  lemma {:induction false} AdvanceWrites(o: Options, env: HookEnv, run: HookRun, k: nat)
    requires 1 <= k <= |AllStages| && RegistryValid(run.after.registry) && WrittenMatch(o, env, run)
    requires forall j :: k <= j < |AllStages| ==> AllStages[j] !in run.ran
    ensures WrittenMatch(o, env, Advance(StepOf(o, env), run, k))
    decreases |AllStages| - k
  {
    if k < |AllStages| && run.settled.Resolved? {
      var st := AllStages[k];
      assert st == CssStage ==> HtmlStage == AllStages[k + 1];
      StepWrites(o, env, run, st);
      var next := Step(o, env, Enter(run, st), st);
      forall j | k + 1 <= j < |AllStages| ensures AllStages[j] !in next.ran {
        assert AllStages[j] != st;
      }
      AdvanceWrites(o, env, next, k + 1);
    }
  }

  /** Once every stage is entered and neither the css nor the html stage fails, both files are there, stylesheet first. */
  lemma OutputsOfAllStages(o: Options, env: HookEnv)
    requires !StageFails(env, CssStage) && !StageFails(env, HtmlStage)
    ensures env.cssRender.Ok? && env.htmlRender.Ok?
    ensures Outputs(o, env, AllStages) ==
      [WrittenFile(Join(o.dist, o.fileName), env.cssRender.value),
       WrittenFile(Join(o.dist, o.htmlFileName), env.htmlRender.value)]
  {
    assert CssStage in AllStages && HtmlStage in AllStages;
  }

  /** The svg stage writes no file of the hook's own and enters only itself. */
  lemma SvgRunWrites(s: HookState, o: Options, env: HookEnv)
    requires RegistryValid(s.registry)
    ensures SvgRun(s, o, env).ran == [SvgStage] && WrittenMatch(o, env, SvgRun(s, o, env))
    ensures forall j :: 1 <= j < |AllStages| ==> AllStages[j] !in SvgRun(s, o, env).ran
  {
    var r := SvgRun(s, o, env);
    assert r.ran == [SvgStage] && r.written == [];
  }

  /**
   * The only files the hook itself writes are the stylesheet at
   * `dist/fileName` and the page at `dist/htmlFileName`, each with its
   * rendered text, each only when its stage was entered and its render and
   * write succeeded; a run that resolves has written both, in that order.
   */
  lemma HookWrites(s: HookState, o: Options, env: HookEnv)
    requires RegistryValid(s.registry)
    ensures var run := Hook(s, o, env);
      run.written == Outputs(o, env, run.ran) &&
      (run.settled.Resolved? ==>
         env.cssRender.Ok? && env.htmlRender.Ok? &&
         run.written == [WrittenFile(Join(o.dist, o.fileName), env.cssRender.value),
                         WrittenFile(Join(o.dist, o.htmlFileName), env.htmlRender.value)])
  {
    HookStateIsSvgStage(s, o, env);
    SvgRunWrites(s, o, env);
    AdvanceWrites(o, env, SvgRun(s, o, env), 1);
    HookFailFast(s, o, env);
    if Hook(s, o, env).settled.Resolved? {
      assert CssStage in AllStages && HtmlStage in AllStages;
      OutputsOfAllStages(o, env);
    }
  }

  /** When every outside step succeeds, the hook resolves having written exactly the stylesheet and the page. */
  lemma HookWritesOutputs(s: HookState, o: Options, env: HookEnv)
    requires RegistryValid(s.registry)
    requires env.listing.Entries? && env.svgFont.Ok? && env.ttf.Ok? && env.eot.Ok? && env.woff.Ok?
    requires env.cssRender.Ok? && env.cssWrite.None? && env.htmlRender.Ok? && env.htmlWrite.None?
    ensures Hook(s, o, env).settled.Resolved?
    ensures Hook(s, o, env).written ==
      [WrittenFile(Join(o.dist, o.fileName), env.cssRender.value),
       WrittenFile(Join(o.dist, o.htmlFileName), env.htmlRender.value)]
  {
    HookFailFast(s, o, env);
    forall st | st in AllStages ensures !StageFails(env, st) {
    }
    HookWrites(s, o, env);
  }

  /**
   * A failed write of the stylesheet or the page still prints that file's
   * report, rejects with the write error and adds no written file.
   */
  lemma FailedWriteStillReports(o: Options, env: HookEnv, run: HookRun)
    ensures env.cssRender.Ok? && env.cssWrite.Some? ==>
      var next := CssStep(o, env, run);
      next.reports == run.reports + [FileReport(Join(o.dist, o.fileName), o.fileName, |env.cssRender.value|)] &&
      next.written == run.written && next.settled == Rejected(env.cssWrite.value)
    ensures env.htmlRender.Ok? && env.htmlWrite.Some? ==>
      var next := HtmlStep(o, env, run);
      next.reports == run.reports + [FileReport(Join(o.dist, o.htmlFileName), o.htmlFileName, |env.htmlRender.value|)] &&
      next.written == run.written && next.settled == Rejected(env.htmlWrite.value)
  {
  }

  lemma HexExamples()
    ensures ToHex(0xEA01) == "ea01" && ToHex(0xEA02) == "ea02"
  {
    assert ToHex(0xE) == "e";
    assert ToHex(0xEA) == "ea";
    assert ToHex(0xEA0) == "ea0";
  }

  lemma ExampleFeed(paths: seq<string>)
    requires |paths| == 2 && GlyphName(paths[0]) == "home" && GlyphName(paths[1]) == "search"
    ensures var fed := WriteGlyphs(InitialRegistry, paths);
      fed.registry.order == ["home", "search"] &&
      fed.registry.codes == map["home" := 0xEA01, "search" := 0xEA02] &&
      fed.glyphs == [Glyph("home", [0xEA01]), Glyph("search", [0xEA02])]
  {
    var a1 := Allocate(InitialRegistry, "home");
    assert a1.unicode == 0xEA01 && a1.registry.order == ["home"];
    var a2 := Allocate(a1.registry, "search");
    assert a2.unicode == 0xEA02;
    assert "search" !in a1.registry.codes;
    assert a2.registry.order == ["home", "search"];
    assert paths[..1][..0] == [];
    assert WriteGlyphs(InitialRegistry, paths[..1]) == GlyphRun(a1.registry, [Glyph("home", [0xEA01])]);
    assert paths[..1] == paths[..|paths| - 1];
    assert WriteGlyphs(InitialRegistry, paths) == GlyphRun(a2.registry, [Glyph("home", [0xEA01]), Glyph("search", [0xEA02])]);
  }

  lemma ExampleRuleText(name: string, code: CodeUnit, hex: string)
    requires ToHex(code) == hex
    ensures CssRule("icon", name, code) == ".icon-" + name + ":before { content: \"\\" + hex + "\"; }\n"
  {
  }

  /** The two example files are their stems followed by ".svg". */
  lemma ExampleFileNames()
    ensures Sep !in "home" && "home" + ".svg" == "home.svg"
    ensures Sep !in "search" && "search" + ".svg" == "search.svg"
  {
    var home, search := "home" + ".svg", "search" + ".svg";
    assert forall i :: 0 <= i < 4 ==> "home"[i] != Sep;
    assert forall i :: 0 <= i < 6 ==> "search"[i] != Sep;
    assert |home| == 8 && forall i :: 0 <= i < 8 ==> home[i] == "home.svg"[i];
    assert |search| == 10 && forall i :: 0 <= i < 10 ==> search[i] == "search.svg"[i];
  }

  /** Listing "home.svg" and "search.svg" keeps both, joined onto the folder. */
  lemma ExampleListing(src: string)
    requires src != ""
    ensures SvgFiles(src, [Name("home.svg")] + [Name("search.svg")]) == [Join(src, "home.svg")] + [Join(src, "search.svg")]
  {
    ExampleFileNames();
    TwoSvgFiles(src, "home", "search");
  }

  /** The glyphs of the two listed files are named "home" and "search". */
  lemma ExampleNames(src: string)
    ensures GlyphName(Join(src, "home.svg")) == "home" && GlyphName(Join(src, "search.svg")) == "search"
  {
    ExampleFileNames();
    SvgFileOfStem(src, "home");
    SvgFileOfStem(src, "search");
  }

  /** The rules for the two-icon feed, in key order. */
  lemma ExampleRules(prefix: string)
    ensures Rules(prefix, ["home", "search"], map["home" := 0xEA01, "search" := 0xEA02])
         == [CssRule(prefix, "home", 0xEA01), CssRule(prefix, "search", 0xEA02)]
  {
    var keys, codes := ["home", "search"], map["home" := 0xEA01, "search" := 0xEA02];
    RuleAt(prefix, keys, codes, 0);
    RuleAt(prefix, keys, codes, 1);
    var r := Rules(prefix, keys, codes);
    assert |r| == 2;
  }

  /** The glyphs of the first run of a process over "home.svg" and "search.svg". */
  lemma TwoIconGlyphs(o: Options, env: HookEnv)
    requires o.src != ""
    requires env.listing == Entries([Name("home.svg")] + [Name("search.svg")]) && env.svgFont.Ok?
    ensures Hook(HookState(InitialRegistry, [], []), o, env).glyphs
         == [Glyph("home", [0xEA01]), Glyph("search", [0xEA02])]
  {
    var paths := [Join(o.src, "home.svg")] + [Join(o.src, "search.svg")];
    assert ListSvgFiles(o.src, env.listing) == Ok(paths) by {
      ExampleListing(o.src);
    }
    HookFeedsListing(HookState(InitialRegistry, [], []), o, env, paths);
    ExampleTwoIconFeed(o.src);
  }

  /** The lists after the first run of a process over "home.svg" and "search.svg". */
  lemma TwoIconLists(s: HookState, o: Options, env: HookEnv)
    requires s == HookState(InitialRegistry, [], [])
    requires o.src != ""
    requires env.listing == Entries([Name("home.svg")] + [Name("search.svg")]) && env.svgFont.Ok?
    ensures Hook(s, o, env).after.cssIconHtml == ["home", "search"]
    ensures Hook(s, o, env).after.cssString
         == [CssRule(RulePrefix(o), "home", 0xEA01), CssRule(RulePrefix(o), "search", 0xEA02)]
  {
    var paths := [Join(o.src, "home.svg")] + [Join(o.src, "search.svg")];
    assert ListSvgFiles(o.src, env.listing) == Ok(paths) by {
      ExampleListing(o.src);
    }
    HookFeedsListing(s, o, env, paths);
    ExampleTwoIconFeed(o.src);
    ExampleTwoIconLists(WriteGlyphs(InitialRegistry, paths).registry, RulePrefix(o));
  }

  /**
   * Two icons "home.svg" and "search.svg" in the first run of a process get
   * U+EA01 and U+EA02 even when `unicodeStart` asks for 60001, and the rules,
   * under the default prefix "icon", carry those codes (`ToHex` spells them
   * "ea01" and "ea02").
   */
  lemma TwoIconExample(pluginDir: string, env: HookEnv)
    requires env.listing == Entries([Name("home.svg")] + [Name("search.svg")]) && env.svgFont.Ok?
    ensures var o := Extend(Defaults(pluginDir), NoOverrides.(unicodeStart := Some(60001)));
      var run := Hook(HookState(InitialRegistry, [], []), o, env);
      o.unicodeStart == 60001 && o.clssaNamePrefix == Str("icon") &&
      run.glyphs == [Glyph("home", [0xEA01]), Glyph("search", [0xEA02])] &&
      run.after.cssIconHtml == ["home", "search"] &&
      run.after.cssString == [CssRule(RulePrefix(o), "home", 0xEA01), CssRule(RulePrefix(o), "search", 0xEA02)]
  {
    var o := Extend(Defaults(pluginDir), NoOverrides.(unicodeStart := Some(60001)));
    ExampleOptions(pluginDir);
    TwoIconGlyphs(o, env);
    TwoIconLists(HookState(InitialRegistry, [], []), o, env);
  }

  lemma ExampleOptions(pluginDir: string)
    ensures var o := Extend(Defaults(pluginDir), NoOverrides.(unicodeStart := Some(60001)));
      o.src != "" && o.clssaNamePrefix == Str("icon") && o.unicodeStart == 60001
  {
  }

  /** The lists a first run appends once the registry holds the two names. */
  lemma ExampleTwoIconLists(reg: Registry, prefix: string)
    requires reg.order == ["home", "search"] && reg.codes == map["home" := 0xEA01, "search" := 0xEA02]
    ensures [] + reg.order == ["home", "search"]
    ensures [] + Rules(prefix, reg.order, reg.codes) == [CssRule(prefix, "home", 0xEA01), CssRule(prefix, "search", 0xEA02)]
  {
    var rules := [CssRule(prefix, "home", 0xEA01), CssRule(prefix, "search", 0xEA02)];
    ExampleRules(prefix);
    assert [] + rules == rules;
  }

  /** Feeding the two joined paths to a fresh registry. */
  lemma ExampleTwoIconFeed(src: string)
    ensures var fed := WriteGlyphs(InitialRegistry, [Join(src, "home.svg")] + [Join(src, "search.svg")]);
      fed.registry.order == ["home", "search"] &&
      fed.registry.codes == map["home" := 0xEA01, "search" := 0xEA02] &&
      fed.glyphs == [Glyph("home", [0xEA01]), Glyph("search", [0xEA02])]
  {
    ExampleNames(src);
    ExampleFeed([Join(src, "home.svg")] + [Join(src, "search.svg")]);
  }

  /** The plugin object: its options are fixed when it is constructed. */
  class SvgToFontPlugin {
    const options: Options
    /** The util.js module state, shared by every plugin in the process. */
    const registry: UnicodeRegistry

    constructor (pluginDir: string, caller: CallerOptions, registry: UnicodeRegistry)
      ensures options == Extend(Defaults(pluginDir), caller) && this.registry == registry
    {
      options := Extend(Defaults(pluginDir), caller);
      this.registry := registry;
    }

    /** `apply`: fresh, empty lists captured by the hook it registers. */
    method Apply() returns (hook: EmitHook)
      requires RegistryValid(registry.Model())
      ensures fresh(hook) && hook.options == options && hook.registry == registry
      ensures hook.cssString == [] && hook.cssIconHtml == [] && hook.Valid()
    {
      hook := new EmitHook(options, registry);
    }
  }

  /** The callback `apply` taps into the `run` hook, with the two lists it keeps across runs. */
  class EmitHook {
    const options: Options
    const registry: UnicodeRegistry
    var cssString: seq<string>
    var cssIconHtml: seq<string>

    function State(): HookState
      reads this, registry
    {
      HookState(registry.Model(), cssString, cssIconHtml)
    }

    ghost predicate Valid()
      reads this, registry
    {
      RegistryValid(registry.Model()) && Lockstep(cssString, cssIconHtml, RulePrefix(options))
    }

    constructor (options: Options, registry: UnicodeRegistry)
      requires RegistryValid(registry.Model())
      ensures this.options == options && this.registry == registry
      ensures cssString == [] && cssIconHtml == [] && Valid()
    {
      this.options := options;
      this.registry := registry;
      cssString := [];
      cssIconHtml := [];
    }

    /** `Object.keys(file.unicodes).forEach(...)`: one name and one rule per key, pushed together. */
    method AppendIconRules(keys: seq<string>, codes: map<string, CodeUnit>)
      requires forall k :: k in keys ==> k in codes
      modifies this
      ensures cssIconHtml == old(cssIconHtml) + keys
      ensures cssString == old(cssString) + Rules(RulePrefix(options), keys, codes)
    {
      var prefix := RulePrefix(options);
      for i := 0 to |keys|
        invariant cssIconHtml == old(cssIconHtml) + keys[..i]
        invariant cssString == old(cssString) + Rules(prefix, keys[..i], codes)
      {
        var rule := CssRule(prefix, keys[i], codes[keys[i]]);
        RulesSnoc(prefix, keys, codes, i);
        assert keys[..i + 1] == keys[..i] + [keys[i]];
        AppendAssoc(old(cssIconHtml), keys[..i], [keys[i]]);
        AppendAssoc(old(cssString), Rules(prefix, keys[..i], codes), [rule]);
        cssIconHtml := cssIconHtml + [keys[i]];
        cssString := cssString + [rule];
      }
      assert keys[..|keys|] == keys;
    }

    /** One run of the hook: the svg stage changes state here; the later stages only produce output. */
    method Run(env: HookEnv) returns (run: HookRun)
      requires Valid()
      modifies this, registry
      ensures Valid()
      ensures run == Hook(old(State()), options, env)
      ensures State() == run.after
    {
      ghost var s0 := State();
      HookStateIsSvgStage(s0, options, env);
      SvgStepCases(s0, options, env);
      run := Enter(Start(State()), SvgStage);
      var svgPaths := FilterSvgFiles(options.src, env.listing);
      assert svgPaths == ListSvgFiles(options.src, env.listing);
      if svgPaths.Err? {
        run := Fail(run, svgPaths.error);
        return;
      }
      var glyphs := FeedGlyphs(registry, svgPaths.value);
      if env.svgFont.Err? {
        run := Fail(run.(after := State(), glyphs := glyphs), env.svgFont.error);
        return;
      }
      AppendKeepsLockstep(cssString, cssIconHtml, RulePrefix(options), registry.keys, registry.unicodeObj);
      AppendIconRules(registry.keys, registry.unicodeObj);
      run := run.(after := State(), glyphs := glyphs,
                  reports := [FontReport(options.dist, options.fontName, ".svg", env.svgFont.value)]);
      AdvanceKeepsState(options, env, run, 1);
      run := Advance(StepOf(options, env), run, 1);
    }
  }
}
