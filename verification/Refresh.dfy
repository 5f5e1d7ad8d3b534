/** One blocklist refresh as a function of what the downloads return, and what
    every run of refreshes guarantees about names that were blocked before. */
module Refresh {
  import opened Names
  import opened Prelude
  import opened Rules
  import opened Verdicts

  type Meta = string

  /** `remote` tells an http(s) URL from a local file path. */
  datatype Source = Source(name: string, url: string, format: string, remote: bool)

  /** What one fetch meets: a failure, a 304, or a complete body. */
  datatype Fetched = Down | NotModified | Body(data: string, meta: Meta)

  datatype Parsed = ParseError | Parsed(blocked: seq<Name>, allowed: seq<Name>)

  type Parser = (string, string) -> Parsed

  datatype Config = Config(sources: seq<Source>, allow: seq<Name>, deny: seq<Name>, parse: Parser)

  datatype State = State(
    blocked: set<Rule>, allowed: set<Rule>, counts: map<string, int>, metas: map<string, Meta>,
    files: map<string, string>, lastErr: Option<string>, lastTry: Option<int>)

  datatype Call = Call(now: int, fetched: seq<Fetched>)

  const COOLDOWN: int := 5_000_000_000

  function CachePath(url: string): string {
    seq(|url|, i requires 0 <= i < |url| => if url[i] in {'/', ':', '?', '&'} then '_' else url[i]) + ".cache"
  }

  function BlockedRules(parse: Parser, data: string, format: string): set<Rule> {
    match parse(data, format)
    case ParseError => {}
    case Parsed(b, _) => RulesOf(b)
  }

  function AllowedRules(parse: Parser, data: string, format: string): set<Rule> {
    match parse(data, format)
    case ParseError => {}
    case Parsed(_, a) => RulesOf(a)
  }

  /** The bytes a fetch yields, before the fallback to the cached copy. */
  function FetchData(src: Source, f: Fetched, files: map<string, string>): Option<string> {
    var path := CachePath(src.url);
    match f
    case Body(data, _) => Some(data)
    case NotModified => if src.remote && path in files then Some(files[path]) else None
    case Down => None
  }

  /** Only a downloaded body is written to the cache, with its metadata. */
  function FetchFiles(src: Source, f: Fetched, files: map<string, string>): map<string, string> {
    if src.remote && f.Body? then files[CachePath(src.url) := f.data] else files
  }

  function FetchMetas(src: Source, f: Fetched, metas: map<string, Meta>): map<string, Meta> {
    if src.remote && f.Body? then metas[src.name := f.meta] else metas
  }

  /** The bytes used for a source: what was fetched, else the cached copy. */
  function LoadData(src: Source, f: Fetched, files: map<string, string>): Option<string> {
    var path := CachePath(src.url);
    match FetchData(src, f, files)
    case Some(d) => Some(d)
    case None => if path in files then Some(files[path]) else None
  }

  function LoadOne(parse: Parser, src: Source, f: Fetched, s: State): State {
    var files := FetchFiles(src, f, s.files);
    var failed := FetchData(src, f, s.files).None?;
    var s' := s.(files := files, metas := FetchMetas(src, f, s.metas),
                 lastErr := if failed && s.lastErr.None? then Some(src.name) else s.lastErr);
    match LoadData(src, f, s.files)
    case None => s'.(counts := s.counts[src.name := -1])
    case Some(data) =>
      var blocked := s.blocked + BlockedRules(parse, data, src.format);
      s'.(blocked := blocked, allowed := s.allowed + AllowedRules(parse, data, src.format),
          counts := s.counts[src.name := |blocked| - |s.blocked|])
  }

  function LoadAll(parse: Parser, srcs: seq<Source>, fetched: seq<Fetched>, s: State): State
    requires |srcs| == |fetched|
  {
    if srcs == [] then s
    else
      var k := |srcs| - 1;
      LoadOne(parse, srcs[k], fetched[k], LoadAll(parse, srcs[..k], fetched[..k], s))
  }

  /** Some source failed and had no cached copy. */
  predicate Missing(srcs: seq<Source>, counts: map<string, int>) {
    exists i :: 0 <= i < |srcs| && srcs[i].name in counts && counts[srcs[i].name] == -1
  }

  /** The metadata of the listed sources. */
  function KnownMetas(srcs: seq<Source>, metas: map<string, Meta>): map<string, Meta> {
    map n | n in metas && exists i :: 0 <= i < |srcs| && srcs[i].name == n :: metas[n]
  }

  /** The whole refresh. */
  ghost function RefreshStep(cfg: Config, s: State, call: Call): State
    requires |call.fetched| == |cfg.sources|
  {
    if s.lastTry.Some? && call.now - s.lastTry.value < COOLDOWN then s
    else
      var empty := State({}, {}, map[], s.metas, s.files, None, Some(call.now));
      var l := LoadAll(cfg.parse, cfg.sources, call.fetched, empty);
      var keep := Missing(cfg.sources, l.counts);
      l.(blocked := l.blocked + RulesOf(cfg.deny) + (if keep then Reread(s.blocked) else {}),
         allowed := l.allowed + RulesOf(cfg.allow) + (if keep then Reread(s.allowed) else {}),
         metas := KnownMetas(cfg.sources, l.metas))
  }

  lemma CoolingDown(cfg: Config, s: State, call: Call)
    requires |call.fetched| == |cfg.sources|
    ensures s.lastTry.Some? && call.now - s.lastTry.value < COOLDOWN ==> RefreshStep(cfg, s, call) == s
  {
  }

  ghost function Start(cfg: Config, files: map<string, string>): State {
    State(RulesOf(cfg.deny), RulesOf(cfg.allow), map[], map[], files, None, None)
  }

  predicate WellShaped(cfg: Config, calls: seq<Call>) {
    forall c :: c in calls ==> |c.fetched| == |cfg.sources|
  }

  ghost function Run(cfg: Config, s: State, calls: seq<Call>): State
    requires WellShaped(cfg, calls)
    decreases calls
  {
    if calls == [] then s else Run(cfg, RefreshStep(cfg, s, calls[0]), calls[1..])
  }

  // ----- what every source sent last -----

  /** The source list never names a source or a cache file twice. */
  predicate DistinctSources(cfg: Config) {
    forall i, j :: 0 <= i < j < |cfg.sources| ==>
      cfg.sources[i].name != cfg.sources[j].name &&
      CachePath(cfg.sources[i].url) != CachePath(cfg.sources[j].url)
  }

  function LatestAll(srcs: seq<Source>, fetched: seq<Fetched>, latest: map<string, Fetched>): map<string, Fetched>
    requires |srcs| == |fetched|
  {
    if srcs == [] then latest
    else
      var k := |srcs| - 1;
      var g := LatestAll(srcs[..k], fetched[..k], latest);
      if fetched[k].Body? then g[srcs[k].name := fetched[k]] else g
  }

  /** The last body received from every source: a call inside the cool-down fetches nothing. */
  ghost function Latest(cfg: Config, s: State, latest: map<string, Fetched>, calls: seq<Call>): map<string, Fetched>
    requires WellShaped(cfg, calls)
    decreases calls
  {
    if calls == [] then latest
    else
      var c := calls[0];
      var g := if s.lastTry.Some? && c.now - s.lastTry.value < COOLDOWN then latest
               else LatestAll(cfg.sources, c.fetched, latest);
      Latest(cfg, RefreshStep(cfg, s, c), g, calls[1..])
  }

  predicate Parses(cfg: Config, src: Source, f: Fetched) {
    f.Body? && cfg.parse(f.data, src.format).Parsed?
  }

  function GoodAll(cfg: Config, srcs: seq<Source>, fetched: seq<Fetched>, good: map<string, Fetched>): map<string, Fetched>
    requires |srcs| == |fetched|
  {
    if srcs == [] then good
    else
      var k := |srcs| - 1;
      var g := GoodAll(cfg, srcs[..k], fetched[..k], good);
      if Parses(cfg, srcs[k], fetched[k]) then g[srcs[k].name := fetched[k]] else g
  }

  /** The last good download of every source: the last body that parses. */
  ghost function Good(cfg: Config, s: State, good: map<string, Fetched>, calls: seq<Call>): map<string, Fetched>
    requires WellShaped(cfg, calls)
    decreases calls
  {
    if calls == [] then good
    else
      var c := calls[0];
      var g := if s.lastTry.Some? && c.now - s.lastTry.value < COOLDOWN then good
               else GoodAll(cfg, cfg.sources, c.fetched, good);
      Good(cfg, RefreshStep(cfg, s, c), g, calls[1..])
  }

  /** The last good download is the last body when that parses, so when no body that came
      after it failed to. */
  ghost predicate Tracks(cfg: Config, src: Source, latest: map<string, Fetched>, good: map<string, Fetched>) {
    && (src.name in good ==> Parses(cfg, src, good[src.name]) && src.name in latest)
    && (src.name in latest ==>
          && latest[src.name].Body?
          && (Parses(cfg, src, latest[src.name]) ==> src.name in good && good[src.name] == latest[src.name]))
  }

  lemma {:induction false} TracksAll(
    cfg: Config, k: nat, fetched: seq<Fetched>, latest: map<string, Fetched>, good: map<string, Fetched>, j: nat)
    requires DistinctSources(cfg) && k <= |cfg.sources| && |fetched| == k && j < |cfg.sources|
    requires Tracks(cfg, cfg.sources[j], latest, good)
    ensures Tracks(cfg, cfg.sources[j], LatestAll(cfg.sources[..k], fetched, latest), GoodAll(cfg, cfg.sources[..k], fetched, good))
  {
    if k > 0 {
      assert cfg.sources[..k][..k - 1] == cfg.sources[..k - 1];
      TracksAll(cfg, k - 1, fetched[..k - 1], latest, good, j);
    }
  }

  lemma {:induction false} RunTracks(
    cfg: Config, s: State, latest: map<string, Fetched>, good: map<string, Fetched>, calls: seq<Call>, j: nat)
    requires DistinctSources(cfg) && WellShaped(cfg, calls) && j < |cfg.sources|
    requires Tracks(cfg, cfg.sources[j], latest, good)
    ensures Tracks(cfg, cfg.sources[j], Latest(cfg, s, latest, calls), Good(cfg, s, good, calls))
    decreases calls
  {
    hide Tracks, RefreshStep;
    if calls != [] {
      var c := calls[0];
      if s.lastTry.Some? && c.now - s.lastTry.value < COOLDOWN {
        RunTracks(cfg, RefreshStep(cfg, s, c), latest, good, calls[1..], j);
      } else {
        var n := |cfg.sources|;
        assert cfg.sources[..n] == cfg.sources;
        TracksAll(cfg, n, c.fetched, latest, good, j);
        RunTracks(cfg, RefreshStep(cfg, s, c), LatestAll(cfg.sources, c.fetched, latest),
                  GoodAll(cfg, cfg.sources, c.fetched, good), calls[1..], j);
      }
    }
  }

  /** Every name that a solid rule of `a` matches, `b` matches too. */
  ghost predicate Keeps(a: set<Rule>, b: set<Rule>) {
    forall x, ls: Labels :: x in a && Solid(x) && Suffix(x, ls) ==> Covered(b, ls)
  }

  ghost predicate InForce(src: Source, rules: set<Rule>, blocked: set<Rule>) {
    if src.remote then rules <= blocked else Keeps(rules, blocked)
  }

  ghost predicate Protected(cfg: Config, s: State, latest: map<string, Fetched>) {
    && (forall r :: r in s.blocked + s.allowed ==> StoredForm(r))
    && (forall i :: 0 <= i < |cfg.sources| ==> ProtectedSource(cfg, s, latest, cfg.sources[i]))
    && RulesOf(cfg.deny) <= s.blocked && RulesOf(cfg.allow) <= s.allowed
  }

  /** The invariant for one source.  Of a remote source, the body it last sent is on disk and
      all rules of it are in force; of a local file, what the solid rules of it match is still
      matched.  Metadata belong to the last body. */
  ghost predicate ProtectedSource(cfg: Config, s: State, latest: map<string, Fetched>, src: Source) {
    && (src.name in latest ==>
          && latest[src.name].Body?
          && InForce(src, BlockedRules(cfg.parse, latest[src.name].data, src.format), s.blocked)
          && (src.remote ==> CachePath(src.url) in s.files && s.files[CachePath(src.url)] == latest[src.name].data))
    && (!src.remote ==> CachePath(src.url) !in s.files)
    && (src.name in s.metas ==> src.remote && src.name in latest && s.metas[src.name] == latest[src.name].meta)
  }

  // ----- what loading does -----

  /** The file, metadata and count of `src` are the same in both states. */
  ghost predicate Untouched(src: Source, s: State, l: State) {
    var path, name := CachePath(src.url), src.name;
    && (path in l.files <==> path in s.files) && (path in s.files ==> l.files[path] == s.files[path])
    && (name in l.metas <==> name in s.metas) && (name in s.metas ==> l.metas[name] == s.metas[name])
    && (name in l.counts <==> name in s.counts)
  }

  lemma OneFrame(parse: Parser, src: Source, f: Fetched, s: State, other: Source)
    requires src.name != other.name && CachePath(src.url) != CachePath(other.url)
    ensures Untouched(other, s, LoadOne(parse, src, f, s))
  {
  }

  lemma {:induction false} LoadFrame(cfg: Config, k: nat, fetched: seq<Fetched>, s: State)
    requires DistinctSources(cfg) && k <= |cfg.sources| && |fetched| == k
    ensures var l := LoadAll(cfg.parse, cfg.sources[..k], fetched, s);
      forall j :: k <= j < |cfg.sources| ==> Untouched(cfg.sources[j], s, l)
  {
    if k > 0 {
      hide LoadOne, CachePath;
      assert cfg.sources[..k][..k - 1] == cfg.sources[..k - 1];
      LoadFrame(cfg, k - 1, fetched[..k - 1], s);
      var l := LoadAll(cfg.parse, cfg.sources[..k - 1], fetched[..k - 1], s);
      forall j | k <= j < |cfg.sources|
        ensures Untouched(cfg.sources[j], l, LoadOne(cfg.parse, cfg.sources[k - 1], fetched[k - 1], l))
      {
        OneFrame(cfg.parse, cfg.sources[k - 1], fetched[k - 1], l, cfg.sources[j]);
      }
    }
  }

  /** What a loaded source leaves in the state, whatever is loaded after it. */
  ghost predicate Loaded(cfg: Config, src: Source, f: Fetched, s: State, l: State) {
    var path := CachePath(src.url);
    && l.counts.Keys >= {src.name}
    && (l.counts[src.name] == -1 <==> LoadData(src, f, s.files).None?)
    && (LoadData(src, f, s.files).Some? ==>
          && BlockedRules(cfg.parse, LoadData(src, f, s.files).value, src.format) <= l.blocked
          && AllowedRules(cfg.parse, LoadData(src, f, s.files).value, src.format) <= l.allowed)
    && (if src.remote && f.Body? then path in l.files && l.files[path] == f.data
        else (path in l.files <==> path in s.files) && (path in s.files ==> l.files[path] == s.files[path]))
    && (if src.remote && f.Body? then src.name in l.metas && l.metas[src.name] == f.meta
        else (src.name in l.metas <==> src.name in s.metas) && (src.name in s.metas ==> l.metas[src.name] == s.metas[src.name]))
  }

  /** Loading another source keeps what the earlier one left. */
  lemma LoadedKept(cfg: Config, src: Source, f: Fetched, s: State, l: State, other: Source, g: Fetched)
    requires Loaded(cfg, src, f, s, l)
    requires other.name != src.name && CachePath(other.url) != CachePath(src.url)
    ensures Loaded(cfg, src, f, s, LoadOne(cfg.parse, other, g, l))
  {
  }

  /** Loading a source whose file and metadata are still those of the start. */
  lemma LoadedNew(cfg: Config, src: Source, f: Fetched, s: State, l: State)
    requires var path := CachePath(src.url);
      (path in l.files <==> path in s.files) && (path in s.files ==> l.files[path] == s.files[path])
    requires (src.name in l.metas <==> src.name in s.metas) && (src.name in s.metas ==> l.metas[src.name] == s.metas[src.name])
    ensures Loaded(cfg, src, f, s, LoadOne(cfg.parse, src, f, l))
  {
    var l' := LoadOne(cfg.parse, src, f, l);
    SubsetSize(l.blocked, l'.blocked);
    assert LoadData(src, f, l.files) == LoadData(src, f, s.files);
  }

  lemma {:induction false} LoadEach(cfg: Config, k: nat, fetched: seq<Fetched>, s: State)
    requires DistinctSources(cfg) && k <= |cfg.sources| && |fetched| == k
    ensures var l := LoadAll(cfg.parse, cfg.sources[..k], fetched, s);
      forall j :: 0 <= j < k ==> Loaded(cfg, cfg.sources[j], fetched[j], s, l)
  {
    if k > 0 {
      assert cfg.sources[..k][..k - 1] == cfg.sources[..k - 1];
      LoadEach(cfg, k - 1, fetched[..k - 1], s);
      LoadFrame(cfg, k - 1, fetched[..k - 1], s);
      var l := LoadAll(cfg.parse, cfg.sources[..k - 1], fetched[..k - 1], s);
      var src, f := cfg.sources[k - 1], fetched[k - 1];
      forall j | 0 <= j < k - 1 ensures Loaded(cfg, cfg.sources[j], fetched[j], s, LoadOne(cfg.parse, src, f, l)) {
        assert fetched[..k - 1][j] == fetched[j];
        LoadedKept(cfg, cfg.sources[j], fetched[j], s, l, src, f);
      }
      LoadedNew(cfg, src, f, s, l);
    }
  }

  lemma OneCount(parse: Parser, src: Source, f: Fetched, s: State, l: State, name: string)
    ensures name != src.name ==> (name in LoadOne(parse, src, f, l).counts <==> name in l.counts)
    ensures name != src.name && name in l.counts ==> LoadOne(parse, src, f, l).counts[name] == l.counts[name]
    ensures Untouched(src, s, l) && LoadData(src, f, s.files).Some? ==>
      && src.name in LoadOne(parse, src, f, l).counts
      && LoadOne(parse, src, f, l).counts[src.name] == |LoadOne(parse, src, f, l).blocked| - |l.blocked|
  {
  }

  /** The count kept for a source is the number of rules that were new when its turn came. */
  lemma {:induction false} CountEach(cfg: Config, k: nat, fetched: seq<Fetched>, s: State, j: nat)
    requires DistinctSources(cfg) && j < k <= |cfg.sources| && |fetched| == k
    requires LoadData(cfg.sources[j], fetched[j], s.files).Some?
    ensures var l, name := LoadAll(cfg.parse, cfg.sources[..k], fetched, s), cfg.sources[j].name;
      && name in l.counts
      && l.counts[name] ==
        |LoadAll(cfg.parse, cfg.sources[..j + 1], fetched[..j + 1], s).blocked| - |LoadAll(cfg.parse, cfg.sources[..j], fetched[..j], s).blocked|
  {
    hide LoadOne, LoadData;
    assert cfg.sources[..k][..k - 1] == cfg.sources[..k - 1];
    var before := LoadAll(cfg.parse, cfg.sources[..k - 1], fetched[..k - 1], s);
    OneCount(cfg.parse, cfg.sources[k - 1], fetched[k - 1], s, before, cfg.sources[j].name);
    if j < k - 1 {
      CountEach(cfg, k - 1, fetched[..k - 1], s, j);
      assert fetched[..k - 1][..j] == fetched[..j] && fetched[..k - 1][..j + 1] == fetched[..j + 1];
    } else {
      LoadFrame(cfg, k - 1, fetched[..k - 1], s);
      assert fetched[..j + 1] == fetched;
    }
  }

  lemma {:induction false} LoadForm(parse: Parser, srcs: seq<Source>, fetched: seq<Fetched>, s: State)
    requires |srcs| == |fetched| && forall r :: r in s.blocked + s.allowed ==> StoredForm(r)
    ensures var l := LoadAll(parse, srcs, fetched, s); forall r :: r in l.blocked + l.allowed ==> StoredForm(r)
  {
    if srcs != [] {
      var k := |srcs| - 1;
      LoadForm(parse, srcs[..k], fetched[..k], s);
      match LoadData(srcs[k], fetched[k], LoadAll(parse, srcs[..k], fetched[..k], s).files) {
        case None =>
        case Some(data) =>
          match parse(data, srcs[k].format) {
            case ParseError =>
            case Parsed(b, a) =>
              RulesForm(b);
              RulesForm(a);
          }
      }
    }
  }

  lemma RulesForm(entries: seq<Name>)
    ensures forall r :: r in RulesOf(entries) ==> StoredForm(r)
  {
    forall r | r in RulesOf(entries) ensures StoredForm(r) {
      InRulesOf(entries, r);
      var e :| e in entries && RuleOf(e) == Some(r);
      RuleOfForm(e);
    }
  }

  lemma {:induction false} LatestEach(cfg: Config, k: nat, fetched: seq<Fetched>, latest: map<string, Fetched>)
    requires DistinctSources(cfg) && k <= |cfg.sources| && |fetched| == k
    ensures var g := LatestAll(cfg.sources[..k], fetched, latest);
      && (forall n :: n in latest ==> n in g)
      && (forall j :: 0 <= j < k && fetched[j].Body? ==> cfg.sources[j].name in g && g[cfg.sources[j].name] == fetched[j])
      && (forall j :: 0 <= j < |cfg.sources| && (j >= k || !fetched[j].Body?) ==>
            var n := cfg.sources[j].name; (n in g <==> n in latest) && (n in latest ==> g[n] == latest[n]))
  {
    if k > 0 {
      assert cfg.sources[..k][..k - 1] == cfg.sources[..k - 1];
      LatestEach(cfg, k - 1, fetched[..k - 1], latest);
    }
  }

  // ----- what every refresh keeps -----

  lemma KeepsMore(a: set<Rule>, b: set<Rule>, c: set<Rule>)
    requires b <= c
    ensures Keeps(b, c)
    ensures Keeps(a, b) ==> Keeps(a, c)
  {
  }

  lemma KeepsTransitive(a: set<Rule>, b: set<Rule>, c: set<Rule>)
    requires Keeps(a, b) && Keeps(b, c)
    ensures Keeps(a, c)
  {
    forall x, ls: Labels | x in a && Solid(x) && Suffix(x, ls) ensures Covered(c, ls) {
      assert Suffix(x, x);
      var y :| y in b && Suffix(y, x);
      SolidSuffix(y, x);
      SuffixTransitive(y, x, ls);
    }
  }

  /** A refresh in which some source failed without a cached copy still matches every name
      that a solid rule of the old set matched. */
  lemma MissingKeepsAll(cfg: Config, s: State, call: Call)
    requires |call.fetched| == |cfg.sources| && forall r :: r in s.blocked ==> StoredForm(r)
    requires Missing(cfg.sources, RefreshStep(cfg, s, call).counts)
    ensures Keeps(s.blocked, RefreshStep(cfg, s, call).blocked)
  {
    var s' := RefreshStep(cfg, s, call);
    if s.lastTry.Some? && call.now - s.lastTry.value < COOLDOWN {
      KeepsMore(s.blocked, s.blocked, s'.blocked);
    } else {
      RereadKeeps(s.blocked);
      KeepsMore(s.blocked, Reread(s.blocked), s'.blocked);
    }
  }

  lemma RereadKeeps(rules: set<Rule>)
    requires forall r :: r in rules ==> StoredForm(r)
    ensures Keeps(rules, Reread(rules))
  {
    forall x, ls: Labels | x in rules && Solid(x) && Suffix(x, ls) ensures Covered(Reread(rules), ls) {
      SolidKept(rules, x, ls);
    }
  }

  /** The blocked set of such a refresh matches all that the old one matched exactly when it
      matches each enumerated rule of the old one that does not survive the round trip. */
  lemma MissingCoversIff(cfg: Config, s: State, call: Call)
    requires |call.fetched| == |cfg.sources| && forall r :: r in s.blocked ==> StoredForm(r)
    requires Missing(cfg.sources, RefreshStep(cfg, s, call).counts)
    ensures var s' := RefreshStep(cfg, s, call);
      (forall ls: Labels :: Covered(s.blocked, ls) ==> Covered(s'.blocked, ls)) <==>
      forall m :: m in Minimal(s.blocked) && !Stable(m) ==> Covered(s'.blocked, m)
  {
    hide RefreshStep;
    var s' := RefreshStep(cfg, s, call);
    KeepsIff(s.blocked, s'.blocked);
    RefreshReread(cfg, s, call);
    forall m | m in Minimal(s.blocked) && Stable(m) ensures Covered(s'.blocked, m) {
      assert Suffix(m, m);
      if m !in s'.blocked {
        StableKept(s.blocked, m);
      }
    }
  }

  /** Any refresh leaves every blocked name blocked exactly when each old block rule is still
      matched, or was allowed as a whole, and no new allow rule meets an old block rule where
      that was not allowed already. */
  lemma RefreshKeepsIff(cfg: Config, s: State, call: Call)
    requires |call.fetched| == |cfg.sources| && forall r :: r in s.blocked + s.allowed ==> StoredForm(r)
    ensures var s' := RefreshStep(cfg, s, call);
      (forall q :: Blocks(s, q) ==> Blocks(s', q)) <==>
      StillMatched(s.blocked, s.allowed, s'.blocked) && AllowsNoMore(s.blocked, s.allowed, s'.allowed)
  {
    hide RefreshStep, Decides, StillMatched, AllowsNoMore, StoredForm;
    var s' := RefreshStep(cfg, s, call);
    RefreshForm(cfg, s, call);
    assert forall r :: r in s.blocked + s'.allowed ==> r in s.blocked + s.allowed || r in s'.blocked + s'.allowed;
    VerdictsKeptIff(s.blocked, s.allowed, s'.blocked, s'.allowed);
    assert forall q :: (Blocks(s, q) <==> Decides(s.blocked, s.allowed, q)) && (Blocks(s', q) <==> Decides(s'.blocked, s'.allowed, q));
  }

  /** When some source failed without a cached copy: exactly when each enumerated block rule
      that does not survive the round trip is still matched, or was allowed as a whole, and
      no allow rule, downloaded or read back from the old set, is new where it matters. */
  lemma MissingKeepsIff(cfg: Config, s: State, call: Call)
    requires |call.fetched| == |cfg.sources| && forall r :: r in s.blocked + s.allowed ==> StoredForm(r)
    requires Missing(cfg.sources, RefreshStep(cfg, s, call).counts)
    ensures var s' := RefreshStep(cfg, s, call);
      (forall q :: Blocks(s, q) ==> Blocks(s', q)) <==>
      && (forall m :: m in Minimal(s.blocked) && !Stable(m) ==> Covered(s.allowed, m) || Covered(s'.blocked, m))
      && AllowsNoMore(s.blocked, s.allowed, s'.allowed)
  {
    hide RefreshStep, Decides, StillMatched, AllowsNoMore, StoredForm, Blocks, Stable;
    var s' := RefreshStep(cfg, s, call);
    RefreshKeepsIff(cfg, s, call);
    RefreshReread(cfg, s, call);
    assert forall r :: r in s.blocked ==> r in s.blocked + s.allowed;
    if Reread(s.blocked) <= s'.blocked {
      StillMatchedIff(s.blocked, s.allowed, s'.blocked);
    } else {
      SameMatched(s.blocked, s.allowed);
    }
  }

  lemma SameMatched(blocked: set<Rule>, allowed: set<Rule>)
    ensures StillMatched(blocked, allowed, blocked)
    ensures forall m :: m in Minimal(blocked) ==> Covered(blocked, m)
  {
    forall m | m in blocked ensures Covered(blocked, m) {
      assert Suffix(m, m);
    }
  }

  lemma RefreshReread(cfg: Config, s: State, call: Call)
    requires |call.fetched| == |cfg.sources| && Missing(cfg.sources, RefreshStep(cfg, s, call).counts)
    ensures var s' := RefreshStep(cfg, s, call); Reread(s.blocked) <= s'.blocked || s'.blocked == s.blocked
  {
  }

  /** The last good body of a source is loaded again, or the old blocked set is kept. */
  lemma RulesStay(cfg: Config, s: State, latest: map<string, Fetched>, call: Call, src: Source, f: Fetched, data: string, l: State)
    requires |call.fetched| == |cfg.sources| && src in cfg.sources
    requires forall r :: r in s.blocked ==> StoredForm(r)
    requires ProtectedSource(cfg, s, latest, src)
    requires !(s.lastTry.Some? && call.now - s.lastTry.value < COOLDOWN)
    requires var empty := State({}, {}, map[], s.metas, s.files, None, Some(call.now));
      l == LoadAll(cfg.parse, cfg.sources, call.fetched, empty) && Loaded(cfg, src, f, empty, l)
    requires if f.Body? then f.data == data else src.name in latest && latest[src.name].Body? && latest[src.name].data == data
    ensures InForce(src, BlockedRules(cfg.parse, data, src.format), RefreshStep(cfg, s, call).blocked)
  {
    var rules := BlockedRules(cfg.parse, data, src.format);
    var s' := RefreshStep(cfg, s, call);
    if f.Body? || src.remote {
      assert LoadData(src, f, s.files) == Some(data);
      assert l.blocked <= s'.blocked;
      KeepsMore(rules, rules, s'.blocked);
    } else {
      assert Missing(cfg.sources, l.counts);
      MissingKeepsAll(cfg, s, call);
      KeepsTransitive(rules, s.blocked, s'.blocked);
    }
  }

  lemma ProtectSource(cfg: Config, s: State, latest: map<string, Fetched>, call: Call, i: nat)
    requires DistinctSources(cfg) && i < |cfg.sources| && |call.fetched| == |cfg.sources|
    requires !(s.lastTry.Some? && call.now - s.lastTry.value < COOLDOWN)
    requires Protected(cfg, s, latest)
    ensures ProtectedSource(cfg, RefreshStep(cfg, s, call), LatestAll(cfg.sources, call.fetched, latest), cfg.sources[i])
  {
    var n := |cfg.sources|;
    var src, f := cfg.sources[i], call.fetched[i];
    assert cfg.sources[..n] == cfg.sources;
    var empty := State({}, {}, map[], s.metas, s.files, None, Some(call.now));
    LoadEach(cfg, n, call.fetched, empty);
    LatestEach(cfg, n, call.fetched, latest);
    var l := LoadAll(cfg.parse, cfg.sources, call.fetched, empty);
    assert Loaded(cfg, src, f, empty, l);
    var latest' := LatestAll(cfg.sources, call.fetched, latest);
    assert ProtectedSource(cfg, s, latest, src);
    if src.name in latest' {
      RulesStay(cfg, s, latest, call, src, f, latest'[src.name].data, l);
    }
  }

  lemma ProtectStep(cfg: Config, s: State, latest: map<string, Fetched>, call: Call)
    requires DistinctSources(cfg) && |call.fetched| == |cfg.sources|
    requires !(s.lastTry.Some? && call.now - s.lastTry.value < COOLDOWN)
    requires Protected(cfg, s, latest)
    ensures Protected(cfg, RefreshStep(cfg, s, call), LatestAll(cfg.sources, call.fetched, latest))
  {
    forall i | 0 <= i < |cfg.sources|
      ensures ProtectedSource(cfg, RefreshStep(cfg, s, call), LatestAll(cfg.sources, call.fetched, latest), cfg.sources[i])
    {
      ProtectSource(cfg, s, latest, call, i);
    }
    RefreshForm(cfg, s, call);
  }

  lemma RefreshForm(cfg: Config, s: State, call: Call)
    requires |call.fetched| == |cfg.sources|
    requires forall r :: r in s.blocked + s.allowed ==> StoredForm(r)
    ensures var s' := RefreshStep(cfg, s, call); forall r :: r in s'.blocked + s'.allowed ==> StoredForm(r)
  {
    hide StoredForm, Reread, LoadAll;
    LoadForm(cfg.parse, cfg.sources, call.fetched, State({}, {}, map[], s.metas, s.files, None, Some(call.now)));
    RulesForm(cfg.deny);
    RulesForm(cfg.allow);
    assert forall r :: r in s.blocked ==> r in s.blocked + s.allowed;
    assert forall r :: r in s.allowed ==> r in s.blocked + s.allowed;
    RereadForm(s.blocked);
    RereadForm(s.allowed);
  }

  /** In every run of refreshes, whatever the downloads return, all rules of the body a remote
      source last sent are in the blocked set, and what the solid rules of a local file's last
      content match is matched; the inline entries are always in the sets; and the metadata
      sent with a conditional request belong to the cached body. */
  lemma {:induction false} RunProtects(cfg: Config, s: State, latest: map<string, Fetched>, calls: seq<Call>)
    requires DistinctSources(cfg) && WellShaped(cfg, calls) && Protected(cfg, s, latest)
    ensures Protected(cfg, Run(cfg, s, calls), Latest(cfg, s, latest, calls))
    decreases calls
  {
    if calls != [] {
      var c := calls[0];
      if s.lastTry.Some? && c.now - s.lastTry.value < COOLDOWN {
        RunProtects(cfg, s, latest, calls[1..]);
      } else {
        ProtectStep(cfg, s, latest, c);
        RunProtects(cfg, RefreshStep(cfg, s, c), LatestAll(cfg.sources, c.fetched, latest), calls[1..]);
      }
    }
  }

  /** In every run in which no body of a source after its last good one fails to parse, the
      rules of that good one are in force. */
  lemma GoodInForce(cfg: Config, files: map<string, string>, calls: seq<Call>, i: nat)
    requires DistinctSources(cfg) && WellShaped(cfg, calls) && i < |cfg.sources|
    requires forall j :: 0 <= j < |cfg.sources| && !cfg.sources[j].remote ==> CachePath(cfg.sources[j].url) !in files
    ensures var start, src := Start(cfg, files), cfg.sources[i];
      var latest, good := Latest(cfg, start, map[], calls), Good(cfg, start, map[], calls);
      src.name in good ==>
        && good[src.name].Body? && src.name in latest && latest[src.name].Body?
        && (Parses(cfg, src, latest[src.name]) ==>
              InForce(src, BlockedRules(cfg.parse, good[src.name].data, src.format), Run(cfg, start, calls).blocked))
        && (BlockedRules(cfg.parse, latest[src.name].data, src.format) == BlockedRules(cfg.parse, good[src.name].data, src.format) <==>
              Parses(cfg, src, latest[src.name]) || BlockedRules(cfg.parse, good[src.name].data, src.format) == {})
  {
    hide Good, Latest, Run, InForce;
    StartProtected(cfg, files);
    RunProtects(cfg, Start(cfg, files), map[], calls);
    RunTracks(cfg, Start(cfg, files), map[], map[], calls, i);
    var s, latest := Run(cfg, Start(cfg, files), calls), Latest(cfg, Start(cfg, files), map[], calls);
    assert ProtectedSource(cfg, s, latest, cfg.sources[i]);
  }

  lemma StartProtected(cfg: Config, files: map<string, string>)
    requires forall j :: 0 <= j < |cfg.sources| && !cfg.sources[j].remote ==> CachePath(cfg.sources[j].url) !in files
    ensures Protected(cfg, Start(cfg, files), map[])
  {
    hide StoredForm;
    RulesForm(cfg.deny);
    RulesForm(cfg.allow);
  }

  /** The same, read off for one queried name, with the verdict on it. */
  lemma StaysBlocked(cfg: Config, files: map<string, string>, calls: seq<Call>, i: nat, query: Name)
    requires DistinctSources(cfg) && WellShaped(cfg, calls) && i < |cfg.sources|
    requires forall j :: 0 <= j < |cfg.sources| && !cfg.sources[j].remote ==> CachePath(cfg.sources[j].url) !in files
    requires var good, src := Good(cfg, Start(cfg, files), map[], calls), cfg.sources[i];
      src.name in good && good[src.name].Body? && Matches(BlockedRules(cfg.parse, good[src.name].data, src.format), query)
    requires var latest, src := Latest(cfg, Start(cfg, files), map[], calls), cfg.sources[i];
      src.name in latest && Parses(cfg, src, latest[src.name])
    requires var good, src := Good(cfg, Start(cfg, files), map[], calls), cfg.sources[i];
      src.remote ||
      exists x :: x in BlockedRules(cfg.parse, good[src.name].data, src.format) && Solid(x) && Suffix(x, Split(Normalize(query)))
    ensures var s := Run(cfg, Start(cfg, files), calls);
      Matches(s.blocked, query) && (Blocks(s, query) <==> !Matches(s.allowed, query))
  {
    hide Good, Latest, Run, BlockedRules;
    GoodInForce(cfg, files, calls, i);
  }

  lemma OneEntry(entry: Name, stored: Rule)
    requires RuleOf(entry) == Some(stored)
    ensures RulesOf([entry]) == {stored}
  {
    assert [entry][..0] == [];
  }

  lemma NothingMatches(query: Name)
    ensures !Matches({}, query)
  {
  }

  // ----- runs in which names are unblocked -----

  lemma OneList(cfg: Config, call: Call, s: State)
    requires |cfg.sources| == |call.fetched| == 1
    ensures LoadAll(cfg.parse, cfg.sources, call.fetched, s) == LoadOne(cfg.parse, cfg.sources[0], call.fetched[0], s)
  {
    assert LoadAll(cfg.parse, cfg.sources[..0], call.fetched[..0], s) == s;
  }

  lemma TwoLists(cfg: Config, call: Call, s: State)
    requires |cfg.sources| == |call.fetched| == 2
    ensures LoadAll(cfg.parse, cfg.sources, call.fetched, s) ==
      LoadOne(cfg.parse, cfg.sources[1], call.fetched[1], LoadOne(cfg.parse, cfg.sources[0], call.fetched[0], s))
  {
    assert LoadAll(cfg.parse, cfg.sources[..1][..0], call.fetched[..1][..0], s) == s;
    assert cfg.sources[..1][0] == cfg.sources[0] && call.fetched[..1][0] == call.fetched[0];
    assert LoadAll(cfg.parse, cfg.sources[..1], call.fetched[..1], s) == LoadOne(cfg.parse, cfg.sources[0], call.fetched[0], s);
  }

  /** A local list is read once and then fails: an entry that was blocked no longer is, because
      its stored rule starts with a blank. */
  lemma OutageUnblocks(cfg: Config, src: Source, data: string, blank: Name, l: Name, stored: Rule, entry: Name)
    requires blank == [' '] && TldLike(l) && stored == [blank + l, l, l]
    requires entry == l + ['.'] + (blank + l + ['.'] + (l + ['.'] + l))
    requires cfg.deny == [] && cfg.allow == [] && cfg.sources == [src] && !src.remote
    requires cfg.parse(data, src.format) == Parsed([entry], [])
    ensures var s := RefreshStep(cfg, Start(cfg, map[]), Call(0, [Body(data, "")]));
      && Blocks(s, entry)
      && !Matches(RefreshStep(cfg, s, Call(COOLDOWN, [Down])).blocked, entry)
  {
    hide Matches, Reread, RuleOf, Minimal;
    BlankStartLost(blank, l, stored, entry);
    OneEntry(entry, stored);
    FirstRead(cfg, src, data, "", entry);
    var s := RefreshStep(cfg, Start(cfg, map[]), Call(0, [Body(data, "")]));
    SecondFails(cfg, src, s);
    NothingMatches(entry);
  }

  lemma FirstRead(cfg: Config, src: Source, data: string, meta: Meta, entry: Name)
    requires cfg.deny == [] && cfg.allow == [] && cfg.sources == [src]
    requires cfg.parse(data, src.format) == Parsed([entry], [])
    ensures var s := RefreshStep(cfg, Start(cfg, map[]), Call(0, [Body(data, meta)]));
      && s.blocked == RulesOf([entry]) && s.allowed == {} && s.lastTry == Some(0)
      && s.files == if src.remote then map[CachePath(src.url) := data] else map[]
  {
    OneList(cfg, Call(0, [Body(data, meta)]), State({}, {}, map[], map[], map[], None, Some(0)));
  }

  lemma SecondFails(cfg: Config, src: Source, s: State)
    requires cfg.deny == [] && cfg.sources == [src] && s.files == map[] && s.lastTry == Some(0)
    ensures RefreshStep(cfg, s, Call(COOLDOWN, [Down])).blocked == Reread(s.blocked)
  {
    var call := Call(COOLDOWN, [Down]);
    var empty := State({}, {}, map[], s.metas, s.files, None, Some(COOLDOWN));
    OneList(cfg, call, empty);
    var l := LoadAll(cfg.parse, cfg.sources, call.fetched, empty);
    assert Missing(cfg.sources, l.counts) by {
      assert cfg.sources[0].name in l.counts;
    }
  }

  /** A body that does not parse takes the place of the last good one, on disk too: without any
      failed fetch, all rules of a remote list drop out, and stay out while fetches fail. */
  lemma UnparsedBodyDrops(cfg: Config, src: Source, data: string, broken: string, meta: Meta, entry: Name)
    requires cfg.deny == [] && cfg.allow == [] && cfg.sources == [src] && src.remote
    requires RuleOf(entry).Some? && cfg.parse(data, src.format) == Parsed([entry], [])
    requires cfg.parse(broken, src.format) == ParseError
    ensures var s := RefreshStep(cfg, Start(cfg, map[]), Call(0, [Body(data, meta)]));
      var s' := RefreshStep(cfg, s, Call(COOLDOWN, [Body(broken, meta)]));
      Blocks(s, entry) && s'.blocked == {} && RefreshStep(cfg, s', Call(2 * COOLDOWN, [Down])).blocked == {}
  {
    hide RuleOf, Matches, Reread;
    FirstRead(cfg, src, data, meta, entry);
    OneEntry(entry, RuleOf(entry).value);
    RuleMatchesItself({RuleOf(entry).value}, entry, RuleOf(entry).value);
    NothingMatches(entry);
    var s := RefreshStep(cfg, Start(cfg, map[]), Call(0, [Body(data, meta)]));
    BrokenRead(cfg, src, broken, s, Call(COOLDOWN, [Body(broken, meta)]));
    var s' := RefreshStep(cfg, s, Call(COOLDOWN, [Body(broken, meta)]));
    BrokenRead(cfg, src, broken, s', Call(2 * COOLDOWN, [Down]));
  }

  /** The body in use does not parse: the list gives no rules and counts as loaded. */
  lemma BrokenRead(cfg: Config, src: Source, broken: string, s: State, call: Call)
    requires cfg.deny == [] && cfg.sources == [src] && src.remote && |call.fetched| == 1
    requires cfg.parse(broken, src.format) == ParseError
    requires s.lastTry.Some? && call.now - s.lastTry.value >= COOLDOWN
    requires LoadData(src, call.fetched[0], s.files) == Some(broken)
    ensures var s' := RefreshStep(cfg, s, call);
      && s'.blocked == {} && s'.lastTry == Some(call.now)
      && CachePath(src.url) in s'.files && s'.files[CachePath(src.url)] == broken
  {
    var empty := State({}, {}, map[], s.metas, s.files, None, Some(call.now));
    OneList(cfg, call, empty);
    var l := LoadAll(cfg.parse, cfg.sources, call.fetched, empty);
    assert l.counts == map[src.name := 0];
    assert !Missing(cfg.sources, l.counts);
  }

  /** The fallback also adds the old allow rules again.  A remote list sends the same body twice
      and its entry is still matched, but a local list that has failed in between had an
      exception with empty labels, which comes back as a whole top-level domain. */
  lemma OutageAllows(cfg: Config, one: Source, two: Source, body: Fetched, exceptions: string, l: Name,
                     entry: Name, exception: Name, stored: Rule)
    requires TldLike(l) && entry == l + ['.'] + l && exception == l + (['.', '.', '.'] + l) && stored == [[], [], l]
    requires cfg.deny == [] && cfg.allow == [] && cfg.sources == [one, two] && one.remote && !two.remote
    requires one.name != two.name && CachePath(one.url) != CachePath(two.url) && body.Body?
    requires cfg.parse(body.data, one.format) == Parsed([entry], [])
    requires cfg.parse(exceptions, two.format) == Parsed([], [exception])
    ensures var s := RefreshStep(cfg, Start(cfg, map[]), Call(0, [body, Body(exceptions, "")]));
      var s' := RefreshStep(cfg, s, Call(COOLDOWN, [body, Down]));
      Blocks(s, entry) && Matches(s'.blocked, entry) && !Blocks(s', entry)
  {
    hide RuleOf, Matches, Reread, Minimal;
    EmptyLabelsWiden(l, exception, stored);
    SecondLevel(l, entry);
    OneEntry(entry, [l, l]);
    OneEntry(exception, stored);
    BothRead(cfg, one, two, body, exceptions, entry, exception);
    var s := RefreshStep(cfg, Start(cfg, map[]), Call(0, [body, Body(exceptions, "")]));
    OneFails(cfg, one, two, body, entry, s);
    LongerMatchesNot(entry, stored, [l, l]);
    RuleMatchesItself({[l, l]}, entry, [l, l]);
    var s' := RefreshStep(cfg, s, Call(COOLDOWN, [body, Down]));
    MatchedBy(s'.blocked, entry, [l, l]);
    MatchedBy(s'.allowed, entry, [l]);
  }

  lemma BothRead(cfg: Config, one: Source, two: Source, body: Fetched, exceptions: string, entry: Name, exception: Name)
    requires cfg.deny == [] && cfg.allow == [] && cfg.sources == [one, two] && one.remote && !two.remote
    requires one.name != two.name && CachePath(one.url) != CachePath(two.url) && body.Body?
    requires cfg.parse(body.data, one.format) == Parsed([entry], [])
    requires cfg.parse(exceptions, two.format) == Parsed([], [exception])
    ensures var s := RefreshStep(cfg, Start(cfg, map[]), Call(0, [body, Body(exceptions, "")]));
      && s.blocked == RulesOf([entry]) && s.allowed == RulesOf([exception]) && s.lastTry == Some(0)
      && CachePath(two.url) !in s.files
  {
    hide CachePath;
    TwoLists(cfg, Call(0, [body, Body(exceptions, "")]), State({}, {}, map[], map[], map[], None, Some(0)));
  }

  lemma OneFails(cfg: Config, one: Source, two: Source, body: Fetched, entry: Name, s: State)
    requires cfg.deny == [] && cfg.allow == [] && cfg.sources == [one, two] && one.remote && !two.remote
    requires one.name != two.name && CachePath(one.url) != CachePath(two.url) && body.Body?
    requires cfg.parse(body.data, one.format) == Parsed([entry], [])
    requires s.lastTry == Some(0) && CachePath(two.url) !in s.files
    ensures var s' := RefreshStep(cfg, s, Call(COOLDOWN, [body, Down]));
      RulesOf([entry]) <= s'.blocked && Reread(s.allowed) <= s'.allowed
  {
    hide CachePath, Reread, RulesOf;
    var call := Call(COOLDOWN, [body, Down]);
    var empty := State({}, {}, map[], s.metas, s.files, None, Some(COOLDOWN));
    TwoLists(cfg, call, empty);
    var l := LoadAll(cfg.parse, cfg.sources, call.fetched, empty);
    assert Missing(cfg.sources, l.counts) by {
      assert cfg.sources[1].name in l.counts;
    }
  }

  // ----- what a check decides -----

  /** The decision of Check: an allow entry wins. */
  ghost predicate Blocks(s: State, domain: Name) {
    Decides(s.blocked, s.allowed, domain)
  }

  /** In every run a name at or below an inline deny entry is blocked exactly when no
      allow entry matches it, and one at or below an inline allow entry never is. */
  lemma InlineEntries(cfg: Config, files: map<string, string>, calls: seq<Call>, entry: Name, query: Name, sub: Name)
    requires DistinctSources(cfg) && WellShaped(cfg, calls)
    requires forall j :: 0 <= j < |cfg.sources| && !cfg.sources[j].remote ==> CachePath(cfg.sources[j].url) !in files
    requires RuleOf(entry).Some?
    requires Normalize(query) == Normalize(entry) || Normalize(query) == sub + ['.'] + Normalize(entry)
    ensures var s := Run(cfg, Start(cfg, files), calls);
      && (entry in cfg.deny ==> (Blocks(s, query) <==> !Matches(s.allowed, query)))
      && (entry in cfg.allow ==> !Blocks(s, query))
  {
    StartProtected(cfg, files);
    RunProtects(cfg, Start(cfg, files), map[], calls);
    var s := Run(cfg, Start(cfg, files), calls);
    InRulesOf(cfg.deny, RuleOf(entry).value);
    InRulesOf(cfg.allow, RuleOf(entry).value);
    if entry in cfg.deny {
      SubdomainMatched(s.blocked, entry, query, sub);
    }
    if entry in cfg.allow {
      SubdomainMatched(s.allowed, entry, query, sub);
    }
  }

  /** "Inline entries always win" is not what the code does: an exception rule of a
      downloaded list unblocks an inline deny entry. */
  lemma DenyEntryCanLose(cfg: Config, src: Source, deny: Name, rule: Rule, data: string)
    requires deny == "ads.example" && rule == ["ads", "example"]
    requires cfg.deny == [deny] && cfg.sources == [src]
    requires cfg.parse(data, src.format) == Parsed([], [deny])
    ensures var s := RefreshStep(cfg, Start(cfg, map[]), Call(0, [Body(data, "")]));
      Matches(s.blocked, deny) && !Blocks(s, deny)
  {
    NormalizeBy(deny, deny, deny);
    assert deny == rule[0] + ['.'] + rule[1];
    RuleOfTwo(deny, rule[0], rule[1]);
    assert RulesOf([deny]) == {rule} by { assert [deny][..0] == []; }
    var call := Call(0, [Body(data, "")]);
    var empty := State({}, {}, map[], map[], map[], None, Some(0));
    assert LoadAll(cfg.parse, cfg.sources[..0], call.fetched[..0], empty) == empty;
    assert LoadAll(cfg.parse, cfg.sources, call.fetched, empty) == LoadOne(cfg.parse, src, Body(data, ""), empty);
    assert LoadData(src, Body(data, ""), map[]) == Some(data);
    var s := RefreshStep(cfg, Start(cfg, map[]), call);
    RuleMatchesItself(s.allowed, deny, rule);
    RuleMatchesItself(s.blocked, deny, rule);
  }

  lemma RuleMatchesItself(rules: set<Rule>, entry: Name, rule: Rule)
    requires RuleOf(entry) == Some(rule) && rule in rules
    ensures Matches(rules, entry)
  {
    SubdomainMatched(rules, entry, entry, []);
  }
}
