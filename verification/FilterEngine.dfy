/** The filter engine: block and allow sets, their refresh and the check of a name.
    Its methods are proved against the functions of Refresh. */
module FilterEngine {
  import opened DomainTrie
  import opened Names
  import opened Prelude
  import opened Rules
  import R = Refresh

  /** Adds every entry and counts the new ones. */
  method AddAll(target: DomainSet, entries: seq<Name>) returns (added: nat)
    requires target.Valid()
    modifies target, target.nodes
    ensures target.Valid() && fresh(target.nodes - old(target.nodes))
    ensures target.Rules() == old(target.Rules()) + RulesOf(entries)
    ensures added == |target.Rules()| - |old(target.Rules())|
  {
    hide DomainSet.Valid, DomainSet.Rules, Accepted;
    added := 0;
    target.Counted();
    ghost var before := target.n;
    for i := 0 to |entries|
      invariant target.Valid() && fresh(target.nodes - old(target.nodes))
      invariant target.Rules() == old(target.Rules()) + RulesOf(entries[..i])
      invariant target.n == before + added
    {
      var isNew := target.Add(entries[i]);
      assert entries[..i + 1][..i] == entries[..i];
      if isNew {
        added := added + 1;
      }
    }
    assert entries[..|entries|] == entries;
    target.Counted();
  }

  class Engine {
    const cfg: R.Config
    var blocked: DomainSet
    var allowed: DomainSet
    var metas: map<string, R.Meta>
    var counts: map<string, int>
    var lastErr: Option<string>
    var lastTry: Option<int>
    var files: map<string, string>  // the cached copies below the data directory
    var hitsBlock: nat
    var hitsAllow: nat
    var hitsPass: nat

    ghost predicate Valid()
      reads this, blocked, blocked.nodes, allowed, allowed.nodes
    {
      blocked.Valid() && allowed.Valid() && Apart(blocked, allowed)
    }

    /** The two sets share no object with each other or with the engine. */
    ghost predicate Apart(b: DomainSet, a: DomainSet)
      reads b, a
    {
      && b != a && b !in a.nodes && a !in b.nodes && b.nodes !! a.nodes
      && this !in b.nodes && this !in a.nodes
    }

    ghost function View(): R.State
      reads this, blocked, allowed
    {
      R.State(blocked.Rules(), allowed.Rules(), counts, metas, files, lastErr, lastTry)
    }

    constructor (cfg: R.Config, files: map<string, string>)
      ensures Valid() && View() == R.Start(cfg, files) && this.cfg == cfg
      ensures hitsBlock == hitsAllow == hitsPass == 0
    {
      this.cfg := cfg;
      var b := new DomainSet();
      var a := new DomainSet();
      var _ := AddAll(b, cfg.deny);
      var _ := AddAll(a, cfg.allow);
      blocked, allowed := b, a;
      metas, counts, lastErr, lastTry := map[], map[], None, None;
      this.files := files;
      hitsBlock, hitsAllow, hitsPass := 0, 0, 0;
    }

    /** The verdict on a name: an allow rule that matches decides first.  Each call bumps one counter. */
    method Check(domain: Name) returns (block: bool)
      requires Valid()
      modifies this`hitsBlock, this`hitsAllow, this`hitsPass
      ensures block <==> R.Blocks(View(), domain)
      ensures hitsAllow == old(hitsAllow) + if Matches(allowed.Rules(), domain) then 1 else 0
      ensures hitsBlock == old(hitsBlock) + if block then 1 else 0
      ensures hitsAllow + hitsBlock + hitsPass == old(hitsAllow + hitsBlock + hitsPass) + 1
    {
      var a := allowed.Has(domain);
      if a {
        hitsAllow := hitsAllow + 1;
        return false;
      }
      var b := blocked.Has(domain);
      if b {
        hitsBlock := hitsBlock + 1;
        return true;
      }
      hitsPass := hitsPass + 1;
      return false;
    }

    /** Downloads one list, keeping a downloaded body and its metadata. */
    method Fetch(src: R.Source, f: R.Fetched) returns (data: Option<string>)
      modifies this`metas, this`files
      ensures data == R.FetchData(src, f, old(files))
      ensures files == R.FetchFiles(src, f, old(files))
      ensures metas == R.FetchMetas(src, f, old(metas))
    {
      var path := R.CachePath(src.url);
      if !src.remote {
        return if f.Body? then Some(f.data) else None;
      }
      match f {
        case Down => return None;
        case NotModified =>
          return if path in files then Some(files[path]) else None;
        case Body(d, meta) =>
          files := files[path := d];
          metas := metas[src.name := meta];
          return Some(d);
      }
    }

    /** Parses one list into the two sets and counts its new block rules. */
    method ParseInto(src: R.Source, data: string, b: DomainSet, a: DomainSet) returns (n: nat)
      requires b.Valid() && a.Valid() && Apart(b, a)
      modifies b, b.nodes, a, a.nodes
      ensures b.Valid() && a.Valid()
      ensures fresh(b.nodes - old(b.nodes)) && fresh(a.nodes - old(a.nodes)) && Apart(b, a)
      ensures b.Rules() == old(b.Rules()) + R.BlockedRules(cfg.parse, data, src.format)
      ensures a.Rules() == old(a.Rules()) + R.AllowedRules(cfg.parse, data, src.format)
      ensures n == |b.Rules()| - |old(b.Rules())|
    {
      hide DomainSet.Valid, DomainSet.Rules, RulesOf;
      var parse := cfg.parse;
      match parse(data, src.format) {
        case ParseError => return 0;
        case Parsed(block, allow) =>
          n := AddAll(b, block);
          var _ := AddAll(a, allow);
      }
    }

    /** Loads every list into the new sets, falling back to the cached copies. */
    method LoadSources(fetched: seq<R.Fetched>, b: DomainSet, a: DomainSet) returns (cs: map<string, int>, err: Option<string>)
      requires |fetched| == |cfg.sources|
      requires b.Valid() && a.Valid() && Apart(b, a)
      requires b.Rules() == {} && a.Rules() == {}
      modifies this`metas, this`files, b, b.nodes, a, a.nodes
      ensures b.Valid() && a.Valid()
      ensures fresh(b.nodes - old(b.nodes)) && fresh(a.nodes - old(a.nodes)) && Apart(b, a)
      ensures R.State(b.Rules(), a.Rules(), cs, metas, files, err, lastTry) ==
        R.LoadAll(cfg.parse, cfg.sources, fetched, R.State({}, {}, map[], old(metas), old(files), None, lastTry))
    {
      hide DomainSet.Valid, DomainSet.Rules, R.LoadOne;
      cs, err := map[], None;
      assert cfg.sources[..0] == [] && fetched[..0] == [];
      ghost var start := R.State({}, {}, map[], metas, files, None, lastTry);
      for i := 0 to |cfg.sources|
        invariant b.Valid() && a.Valid()
        invariant fresh(b.nodes - old(b.nodes)) && fresh(a.nodes - old(a.nodes)) && Apart(b, a)
        invariant R.State(b.Rules(), a.Rules(), cs, metas, files, err, lastTry) ==
          R.LoadAll(cfg.parse, cfg.sources[..i], fetched[..i], start)
      {
        assert cfg.sources[..i + 1][..i] == cfg.sources[..i] && fetched[..i + 1][..i] == fetched[..i];
        cs, err := LoadSource(cfg.sources[i], fetched[i], b, a, cs, err);
      }
      assert cfg.sources[..|cfg.sources|] == cfg.sources && fetched[..|fetched|] == fetched;
    }

    /** One turn of the loop over the lists. */
    method LoadSource(src: R.Source, f: R.Fetched, b: DomainSet, a: DomainSet, cs: map<string, int>, err: Option<string>)
      returns (cs': map<string, int>, err': Option<string>)
      requires b.Valid() && a.Valid() && Apart(b, a)
      modifies this`metas, this`files, b, b.nodes, a, a.nodes
      ensures b.Valid() && a.Valid()
      ensures fresh(b.nodes - old(b.nodes)) && fresh(a.nodes - old(a.nodes)) && Apart(b, a)
      ensures R.State(b.Rules(), a.Rules(), cs', metas, files, err', lastTry) ==
        R.LoadOne(cfg.parse, src, f, old(R.State(b.Rules(), a.Rules(), cs, metas, files, err, lastTry)))
    {
      hide DomainSet.Valid, DomainSet.Rules, R.BlockedRules, R.AllowedRules, R.CachePath;
      cs', err' := cs, err;
      var data := Fetch(src, f);
      if data.None? {
        cs' := cs'[src.name := -1];
        if err'.None? {
          err' := Some(src.name);
        }
        var path := R.CachePath(src.url);
        if path in files {
          data := Some(files[path]);
        }
      }
      if data.None? {
        return;
      }
      var n := ParseInto(src, data.value, b, a);
      cs' := cs'[src.name := n];
    }

    /** Whether some list failed without a usable cached copy. */
    method AnyMissing(cs: map<string, int>) returns (missing: bool)
      ensures missing <==> R.Missing(cfg.sources, cs)
    {
      for i := 0 to |cfg.sources|
        invariant forall j :: 0 <= j < i ==> !(cfg.sources[j].name in cs && cs[cfg.sources[j].name] == -1)
      {
        var name := cfg.sources[i].name;
        if name in cs && cs[name] == -1 {
          return true;
        }
      }
      return false;
    }

    /** The metadata kept for the next conditional requests. */
    method CarryMetas() returns (kept: map<string, R.Meta>)
      ensures kept == R.KnownMetas(cfg.sources, metas)
    {
      kept := map[];
      for i := 0 to |cfg.sources|
        invariant forall n :: n in kept <==> n in metas && exists j :: 0 <= j < i && cfg.sources[j].name == n
        invariant forall n :: n in kept ==> kept[n] == metas[n]
      {
        var name := cfg.sources[i].name;
        if name !in kept && name in metas {
          kept := kept[name := metas[name]];
        }
      }
    }

    /** Adds what the enumeration of an older set shows. */
    method AddEach(older: DomainSet, target: DomainSet)
      requires older.Valid() && target.Valid()
      modifies target, target.nodes
      ensures target.Valid() && fresh(target.nodes - old(target.nodes))
      ensures target.Rules() == old(target.Rules()) + Reread(old(older.Rules()))
    {
      hide DomainSet.Valid, DomainSet.Rules, Reread, Enumerates, RulesOf;
      var names := older.Each();
      RereadEnumeration(older.Rules(), names);
      var _ := AddAll(target, names);
    }

    /** Builds the new sets from the lists and the inline entries. */
    method BuildSets(fetched: seq<R.Fetched>)
      returns (b: DomainSet, a: DomainSet, cs: map<string, int>, err: Option<string>)
      requires |fetched| == |cfg.sources|
      modifies this`metas, this`files
      ensures fresh(b) && fresh(b.nodes) && fresh(a) && fresh(a.nodes)
      ensures b.Valid() && a.Valid() && Apart(b, a)
      ensures var l := R.LoadAll(cfg.parse, cfg.sources, fetched, R.State({}, {}, map[], old(metas), old(files), None, lastTry));
        R.State(b.Rules(), a.Rules(), cs, metas, files, err, lastTry) ==
        l.(blocked := l.blocked + RulesOf(cfg.deny), allowed := l.allowed + RulesOf(cfg.allow))
    {
      hide DomainSet.Valid, DomainSet.Rules, R.LoadAll, RulesOf;
      b := new DomainSet();
      a := new DomainSet();
      cs, err := LoadSources(fetched, b, a);
      var _ := AddAll(b, cfg.deny);
      var _ := AddAll(a, cfg.allow);
    }

    /** Adds what the old sets show, in case some list gave nothing. */
    method KeepOld(cs: map<string, int>, b: DomainSet, a: DomainSet)
      requires Valid() && b.Valid() && a.Valid() && Apart(b, a)
      requires {b, a} + b.nodes + a.nodes !! {blocked, allowed} + blocked.nodes + allowed.nodes
      modifies b, b.nodes, a, a.nodes
      ensures b.Valid() && a.Valid() && Apart(b, a)
      ensures fresh(b.nodes - old(b.nodes)) && fresh(a.nodes - old(a.nodes))
      ensures b.Rules() == old(b.Rules()) + if R.Missing(cfg.sources, cs) then Reread(old(blocked.Rules())) else {}
      ensures a.Rules() == old(a.Rules()) + if R.Missing(cfg.sources, cs) then Reread(old(allowed.Rules())) else {}
    {
      hide DomainSet.Valid, DomainSet.Rules, Reread, R.Missing;
      var missing := AnyMissing(cs);
      if missing {
        AddEach(blocked, b);
        AddEach(allowed, a);
      }
    }

    /** Builds the sets that will replace the old ones, which it does not change. */
    method Rebuild(now: int, fetched: seq<R.Fetched>)
      returns (b: DomainSet, a: DomainSet, cs: map<string, int>, err: Option<string>)
      requires Valid() && |fetched| == |cfg.sources|
      requires !(lastTry.Some? && now - lastTry.value < R.COOLDOWN)
      modifies this`metas, this`files, this`lastTry
      ensures b.Valid() && a.Valid() && Apart(b, a)
      ensures R.State(b.Rules(), a.Rules(), cs, metas, files, err, lastTry) == R.RefreshStep(cfg, old(View()), R.Call(now, fetched))
    {
      hide DomainSet.Valid, DomainSet.Rules, R.LoadAll, RulesOf, Reread, R.Missing, R.KnownMetas;
      lastTry := Some(now);
      b, a, cs, err := BuildSets(fetched);
      KeepOld(cs, b, a);
      metas := CarryMetas();
    }

    /** One refresh, unless the last try is too recent. */
    method Refresh(now: int, fetched: seq<R.Fetched>)
      requires Valid() && |fetched| == |cfg.sources|
      modifies this
      ensures Valid()
      ensures View() == R.RefreshStep(cfg, old(View()), R.Call(now, fetched))
      ensures hitsBlock == old(hitsBlock) && hitsAllow == old(hitsAllow) && hitsPass == old(hitsPass)
    {
      hide DomainSet.Valid, DomainSet.Rules, R.LoadAll, RulesOf, Reread, R.Missing, R.KnownMetas, R.RefreshStep;
      R.CoolingDown(cfg, View(), R.Call(now, fetched));
      if lastTry.Some? && now - lastTry.value < R.COOLDOWN {
        return;
      }
      var b, a, cs, err := Rebuild(now, fetched);
      blocked, allowed, counts, lastErr := b, a, cs, err;
    }
  }
}
