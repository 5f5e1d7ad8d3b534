/** What a refresh leaves, rule by rule and source by source, in terms of the inline entries,
    the bytes in use and the old sets only. */
module RefreshLaws {
  import opened Names
  import opened Prelude
  import opened Rules
  import opened Verdicts
  import R = Refresh

  /** The bytes a source gives: the body just received, else the copy on disk. */
  function InUse(src: R.Source, f: R.Fetched, files: map<string, string>): Option<string> {
    if f.Body? then Some(f.data)
    else if R.CachePath(src.url) in files then Some(files[R.CachePath(src.url)])
    else None
  }

  /** Some source gives nothing. */
  ghost predicate Failed(cfg: R.Config, s: R.State, call: R.Call)
    requires |call.fetched| == |cfg.sources|
  {
    exists j :: 0 <= j < |cfg.sources| && InUse(cfg.sources[j], call.fetched[j], s.files).None?
  }

  ghost predicate FromEntry(entries: seq<Name>, r: Rule) {
    exists e :: e in entries && RuleOf(e) == Some(r)
  }

  /** An entry, or an exception, of the bytes gives the rule. */
  ghost predicate FromList(parse: R.Parser, src: R.Source, data: Option<string>, exceptions: bool, r: Rule) {
    data.Some? && var p := parse(data.value, src.format);
    p.Parsed? && FromEntry(if exceptions then p.allowed else p.blocked, r)
  }

  ghost predicate FromSomeList(cfg: R.Config, s: R.State, call: R.Call, exceptions: bool, r: Rule)
    requires |call.fetched| == |cfg.sources|
  {
    ListsGive(cfg, |cfg.sources|, call.fetched, s.files, exceptions, r)
  }

  /** One of the first `k` lists gives the rule. */
  ghost predicate ListsGive(cfg: R.Config, k: nat, fetched: seq<R.Fetched>, files: map<string, string>, exceptions: bool, r: Rule)
    requires |fetched| == k <= |cfg.sources|
  {
    exists j :: 0 <= j < k && FromList(cfg.parse, cfg.sources[j], InUse(cfg.sources[j], fetched[j], files), exceptions, r)
  }

  lemma ListsGiveSnoc(cfg: R.Config, k: nat, fetched: seq<R.Fetched>, files: map<string, string>, exceptions: bool, r: Rule)
    requires 0 < k <= |cfg.sources| && |fetched| == k
    ensures ListsGive(cfg, k, fetched, files, exceptions, r) <==>
      || ListsGive(cfg, k - 1, fetched[..k - 1], files, exceptions, r)
      || FromList(cfg.parse, cfg.sources[k - 1], InUse(cfg.sources[k - 1], fetched[k - 1], files), exceptions, r)
  {
    hide FromList, InUse;
    assert forall j :: 0 <= j < k - 1 ==> fetched[..k - 1][j] == fetched[j];
  }

  /** A rule of the old set, written out and read back, gives the rule. */
  ghost predicate FromOld(before: set<Rule>, r: Rule) {
    exists m :: m in Minimal(before) && ReadAs(m, r)
  }

  predicate Due(s: R.State, call: R.Call) {
    s.lastTry.None? || call.now - s.lastTry.value >= 5_000_000_000
  }

  lemma LoadDataInUse(src: R.Source, f: R.Fetched, files: map<string, string>)
    ensures R.LoadData(src, f, files) == InUse(src, f, files)
  {
  }

  lemma ListRules(parse: R.Parser, src: R.Source, data: string, r: Rule)
    ensures r in R.BlockedRules(parse, data, src.format) <==> FromList(parse, src, Some(data), false, r)
    ensures r in R.AllowedRules(parse, data, src.format) <==> FromList(parse, src, Some(data), true, r)
  {
    match parse(data, src.format)
    case ParseError =>
    case Parsed(b, a) =>
      InRulesOf(b, r);
      InRulesOf(a, r);
  }

  /** One more source adds its own rules. */
  lemma OneAdds(parse: R.Parser, src: R.Source, f: R.Fetched, s: R.State, l: R.State, r: Rule)
    requires R.Untouched(src, s, l)
    ensures var l' := R.LoadOne(parse, src, f, l);
      && (r in l'.blocked <==> r in l.blocked || FromList(parse, src, InUse(src, f, s.files), false, r))
      && (r in l'.allowed <==> r in l.allowed || FromList(parse, src, InUse(src, f, s.files), true, r))
  {
    hide R.BlockedRules, R.AllowedRules, FromList, R.CachePath;
    LoadDataInUse(src, f, l.files);
    assert InUse(src, f, l.files) == InUse(src, f, s.files);
    if InUse(src, f, s.files).Some? {
      ListRules(parse, src, InUse(src, f, s.files).value, r);
    } else {
      NoBytes(parse, src, r);
    }
  }

  lemma NoBytes(parse: R.Parser, src: R.Source, r: Rule)
    ensures !FromList(parse, src, None, false, r) && !FromList(parse, src, None, true, r)
  {
  }

  lemma {:induction false} LoadedContents(cfg: R.Config, k: nat, fetched: seq<R.Fetched>, s: R.State, exceptions: bool, r: Rule)
    requires R.DistinctSources(cfg) && k <= |cfg.sources| && |fetched| == k
    ensures var l := R.LoadAll(cfg.parse, cfg.sources[..k], fetched, s);
      r in (if exceptions then l.allowed else l.blocked) <==>
        r in (if exceptions then s.allowed else s.blocked) || ListsGive(cfg, k, fetched, s.files, exceptions, r)
  {
    if k > 0 {
      hide R.LoadOne, R.Untouched, FromList, InUse, ListsGive;
      assert cfg.sources[..k][..k - 1] == cfg.sources[..k - 1];
      var l := R.LoadAll(cfg.parse, cfg.sources[..k - 1], fetched[..k - 1], s);
      LoadedContents(cfg, k - 1, fetched[..k - 1], s, exceptions, r);
      R.LoadFrame(cfg, k - 1, fetched[..k - 1], s);
      OneAdds(cfg.parse, cfg.sources[k - 1], fetched[k - 1], s, l, r);
      ListsGiveSnoc(cfg, k, fetched, s.files, exceptions, r);
    }
  }

  /** Exactly the rules of a refresh: those of the inline entries, of the entries or exceptions
      of the bytes in use, and, only if some source gives nothing, those read back from the old
      set. */
  lemma Contents(cfg: R.Config, s: R.State, call: R.Call, r: Rule)
    requires R.DistinctSources(cfg) && |call.fetched| == |cfg.sources| && Due(s, call)
    ensures var s' := R.RefreshStep(cfg, s, call);
      && (r in s'.blocked <==>
            FromEntry(cfg.deny, r) || FromSomeList(cfg, s, call, false, r) || (Failed(cfg, s, call) && FromOld(s.blocked, r)))
      && (r in s'.allowed <==>
            FromEntry(cfg.allow, r) || FromSomeList(cfg, s, call, true, r) || (Failed(cfg, s, call) && FromOld(s.allowed, r)))
  {
    hide FromList, InUse, R.LoadAll, R.Missing, Reread, RuleOf;
    var n := |cfg.sources|;
    assert cfg.sources[..n] == cfg.sources;
    var empty := R.State({}, {}, map[], s.metas, s.files, None, Some(call.now));
    LoadedContents(cfg, n, call.fetched, empty, false, r);
    LoadedContents(cfg, n, call.fetched, empty, true, r);
    MissingIsFailed(cfg, s, call, empty);
    InRulesOf(cfg.deny, r);
    InRulesOf(cfg.allow, r);
    InReread(s.blocked, r);
    InReread(s.allowed, r);
  }

  lemma MissingIsFailed(cfg: R.Config, s: R.State, call: R.Call, empty: R.State)
    requires R.DistinctSources(cfg) && |call.fetched| == |cfg.sources| && empty.files == s.files
    ensures R.Missing(cfg.sources, R.LoadAll(cfg.parse, cfg.sources, call.fetched, empty).counts) <==> Failed(cfg, s, call)
  {
    hide R.LoadData, R.LoadAll, R.BlockedRules, R.AllowedRules, R.CachePath, InUse;
    var n := |cfg.sources|;
    assert cfg.sources[..n] == cfg.sources;
    R.LoadEach(cfg, n, call.fetched, empty);
    var l := R.LoadAll(cfg.parse, cfg.sources, call.fetched, empty);
    forall j | 0 <= j < n
      ensures cfg.sources[j].name in l.counts
      ensures l.counts[cfg.sources[j].name] == -1 <==> InUse(cfg.sources[j], call.fetched[j], s.files).None?
    {
      LoadDataInUse(cfg.sources[j], call.fetched[j], s.files);
      assert R.Loaded(cfg, cfg.sources[j], call.fetched[j], empty, l);
    }
  }

  // ----- the copy on disk -----

  /** A source's copy is named by its whole URL, with the four characters that could not be in
      a file name replaced, and nothing else. */
  lemma CachePathIs(url: string)
    ensures var path := R.CachePath(url);
      && |path| == |url| + 6 && path[|url|..] == ".cache"
      && forall i :: 0 <= i < |url| ==> path[i] == if url[i] == '/' || url[i] == ':' || url[i] == '?' || url[i] == '&' then '_' else url[i]
  {
  }

  // ----- the rest of the state -----

  /** The fetch gave bytes. */
  predicate Fetched(src: R.Source, f: R.Fetched, files: map<string, string>) {
    f.Body? || (f.NotModified? && src.remote && R.CachePath(src.url) in files)
  }

  lemma {:induction false} LoadedError(cfg: R.Config, k: nat, fetched: seq<R.Fetched>, s: R.State) returns (i: int)
    requires R.DistinctSources(cfg) && k <= |cfg.sources| && |fetched| == k && s.lastErr.None?
    ensures var err := R.LoadAll(cfg.parse, cfg.sources[..k], fetched, s).lastErr;
      if i < 0 then err.None? && AllFetched(cfg, k, fetched, s)
      else FirstFailure(cfg, k, fetched, s, i) && err == Some(cfg.sources[i].name)
  {
    i := -1;
    if k == 0 {
      assert AllFetched(cfg, k, fetched, s);
    } else {
      hide R.LoadOne, R.Untouched, Fetched, AllFetched, FirstFailure;
      assert cfg.sources[..k][..k - 1] == cfg.sources[..k - 1];
      var l := R.LoadAll(cfg.parse, cfg.sources[..k - 1], fetched[..k - 1], s);
      i := LoadedError(cfg, k - 1, fetched[..k - 1], s);
      R.LoadFrame(cfg, k - 1, fetched[..k - 1], s);
      OneError(cfg.parse, cfg.sources[k - 1], fetched[k - 1], s, l);
      FailureSnoc(cfg, k, fetched, s, i);
      if i < 0 && !Fetched(cfg.sources[k - 1], fetched[k - 1], s.files) {
        i := k - 1;
      }
    }
  }

  predicate AllFetched(cfg: R.Config, k: nat, fetched: seq<R.Fetched>, s: R.State)
    requires |fetched| == k <= |cfg.sources|
  {
    forall j :: 0 <= j < k ==> Fetched(cfg.sources[j], fetched[j], s.files)
  }

  predicate FirstFailure(cfg: R.Config, k: nat, fetched: seq<R.Fetched>, s: R.State, j: int)
    requires |fetched| == k <= |cfg.sources|
  {
    && 0 <= j < k && !Fetched(cfg.sources[j], fetched[j], s.files)
    && forall i :: 0 <= i < j ==> Fetched(cfg.sources[i], fetched[i], s.files)
  }

  lemma FailureSnoc(cfg: R.Config, k: nat, fetched: seq<R.Fetched>, s: R.State, i: int)
    requires 0 < k <= |cfg.sources| && |fetched| == k
    ensures FirstFailure(cfg, k - 1, fetched[..k - 1], s, i) ==> FirstFailure(cfg, k, fetched, s, i)
    ensures AllFetched(cfg, k - 1, fetched[..k - 1], s) ==>
      if Fetched(cfg.sources[k - 1], fetched[k - 1], s.files) then AllFetched(cfg, k, fetched, s)
      else FirstFailure(cfg, k, fetched, s, k - 1)
  {
    hide Fetched;
    assert forall j :: 0 <= j < k - 1 ==> fetched[..k - 1][j] == fetched[j];
  }

  lemma OneError(parse: R.Parser, src: R.Source, f: R.Fetched, s: R.State, l: R.State)
    requires R.Untouched(src, s, l)
    ensures R.LoadOne(parse, src, f, l).lastErr ==
      if l.lastErr.None? && !Fetched(src, f, s.files) then Some(src.name) else l.lastErr
  {
  }

  /** What is remembered of each source: a body just received from a remote one, with its
      metadata, else what was there before; nothing of a source that is not listed; and as the
      error the first fetch that failed. */
  lemma Remembered(cfg: R.Config, s: R.State, call: R.Call, j: nat)
    requires R.DistinctSources(cfg) && |call.fetched| == |cfg.sources| && Due(s, call) && j < |cfg.sources|
    ensures var s', src, f := R.RefreshStep(cfg, s, call), cfg.sources[j], call.fetched[j];
      var path, name := R.CachePath(src.url), src.name;
      && s'.lastTry == Some(call.now)
      && (src.remote && f.Body? ==>
            path in s'.files && s'.files[path] == f.data && name in s'.metas && s'.metas[name] == f.meta)
      && (!(src.remote && f.Body?) ==>
            && (path in s'.files <==> path in s.files) && (path in s.files ==> s'.files[path] == s.files[path])
            && (name in s'.metas <==> name in s.metas) && (name in s.metas ==> s'.metas[name] == s.metas[name]))
      && name in s'.counts && (s'.counts[name] == -1 <==> InUse(src, f, s.files).None?)
    ensures var s' := R.RefreshStep(cfg, s, call);
      && (forall name :: name in s'.metas ==> exists i :: 0 <= i < |cfg.sources| && cfg.sources[i].name == name)
      && (s'.lastErr.None? <==> AllFetched(cfg, |cfg.sources|, call.fetched, s))
      && (s'.lastErr.Some? ==> exists i :: FirstFailure(cfg, |cfg.sources|, call.fetched, s, i) && s'.lastErr.value == cfg.sources[i].name)
  {
    hide R.LoadData, R.LoadAll, R.BlockedRules, R.AllowedRules, R.CachePath, InUse, Fetched, R.Missing;
    var n := |cfg.sources|;
    assert cfg.sources[..n] == cfg.sources;
    var empty := R.State({}, {}, map[], s.metas, s.files, None, Some(call.now));
    R.LoadEach(cfg, n, call.fetched, empty);
    var i := LoadedError(cfg, n, call.fetched, empty);
    LoadDataInUse(cfg.sources[j], call.fetched[j], s.files);
    LoadKeepsTry(cfg.parse, cfg.sources, call.fetched, empty);
    var l := R.LoadAll(cfg.parse, cfg.sources, call.fetched, empty);
    assert R.Loaded(cfg, cfg.sources[j], call.fetched[j], empty, l);
    if i >= 0 {
      assert FirstFailure(cfg, n, call.fetched, s, i);
    }
  }

  lemma {:induction false} LoadKeepsTry(parse: R.Parser, srcs: seq<R.Source>, fetched: seq<R.Fetched>, s: R.State)
    requires |srcs| == |fetched|
    ensures R.LoadAll(parse, srcs, fetched, s).lastTry == s.lastTry
  {
    if srcs != [] {
      LoadKeepsTry(parse, srcs[..|srcs| - 1], fetched[..|srcs| - 1], s);
    }
  }

  // ----- inline deny entries over runs -----

  /** Nothing the refresh allows matches the name: no exception of the bytes in use and, if some
      source gives nothing, no allow rule read back. */
  ghost predicate Quiet(cfg: R.Config, s: R.State, call: R.Call, ls: Labels)
    requires |call.fetched| == |cfg.sources|
  {
    && (forall r :: FromSomeList(cfg, s, call, true, r) ==> !Suffix(r, ls))
    && (Failed(cfg, s, call) ==> forall r :: FromOld(s.allowed, r) ==> !Suffix(r, ls))
  }

  ghost predicate QuietRun(cfg: R.Config, s: R.State, calls: seq<R.Call>, ls: Labels)
    requires R.WellShaped(cfg, calls)
    decreases calls
  {
    calls != [] ==>
      && (Due(s, calls[0]) ==> Quiet(cfg, s, calls[0], ls))
      && QuietRun(cfg, R.RefreshStep(cfg, s, calls[0]), calls[1..], ls)
  }

  lemma {:induction false} QuietKeeps(cfg: R.Config, s: R.State, calls: seq<R.Call>, ls: Labels)
    requires R.DistinctSources(cfg) && R.WellShaped(cfg, calls) && QuietRun(cfg, s, calls, ls)
    requires !Covered(s.allowed, ls) && forall r :: FromEntry(cfg.allow, r) ==> !Suffix(r, ls)
    ensures !Covered(R.Run(cfg, s, calls).allowed, ls)
    decreases calls
  {
    hide FromEntry, FromSomeList, Failed, FromOld, Suffix;
    if calls != [] {
      var s' := R.RefreshStep(cfg, s, calls[0]);
      if Due(s, calls[0]) {
        forall r | r in s'.allowed ensures !Suffix(r, ls) {
          Contents(cfg, s, calls[0], r);
        }
      } else {
        R.CoolingDown(cfg, s, calls[0]);
      }
      QuietKeeps(cfg, s', calls[1..], ls);
    }
  }

  /** In every run a name at or below an inline deny entry is blocked, unless an inline allow
      entry, an exception of bytes that were in use or an allow rule read back matches it. */
  lemma DenyEntriesHold(cfg: R.Config, files: map<string, string>, calls: seq<R.Call>, entry: Name, query: Name, sub: Name)
    requires R.DistinctSources(cfg) && R.WellShaped(cfg, calls)
    requires forall j :: 0 <= j < |cfg.sources| && !cfg.sources[j].remote ==> R.CachePath(cfg.sources[j].url) !in files
    requires entry in cfg.deny && RuleOf(entry).Some?
    requires Normalize(query) == Normalize(entry) || Normalize(query) == sub + ['.'] + Normalize(entry)
    requires var ls := Split(Normalize(query));
      QuietRun(cfg, R.Start(cfg, files), calls, ls) && forall r :: FromEntry(cfg.allow, r) ==> !Suffix(r, ls)
    ensures R.Blocks(R.Run(cfg, R.Start(cfg, files), calls), query)
  {
    hide QuietRun, R.Run, Normalize, Split, Suffix, RuleOf;
    var ls, start := Split(Normalize(query)), R.Start(cfg, files);
    forall r | r in start.allowed ensures !Suffix(r, ls) {
      InRulesOf(cfg.allow, r);
    }
    QuietKeeps(cfg, start, calls, ls);
    R.InlineEntries(cfg, files, calls, entry, query, sub);
  }
}
