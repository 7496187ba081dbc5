/**
 The module list and the cache of log sites of glog's vlog_is_on.cc.

 A site remembers a pointer to the level that controls it: a module's level, or the default level
 FLAGS_v.  Sites on the default are kept on a list, so that a new module pattern can redirect them.
 */
module Vlog {
  import opened Wildcards

  // ---------- Module lists as values ----------

  datatype Module = Module(pattern: string, level: int)

  /** The first module that matches, |ms| when none does: the linear scan. */
  function Scan(ms: seq<Module>, name: string): (i: nat)
    ensures i <= |ms|
    ensures i < |ms| ==> FnMatch(ms[i].pattern, name)
    ensures forall j :: 0 <= j < i ==> !FnMatch(ms[j].pattern, name)
  {
    if ms == [] || FnMatch(ms[0].pattern, name) then 0
    else
      var i := Scan(ms[1..], name);
      assert forall j :: 1 <= j < i + 1 ==> ms[j] == ms[1..][j - 1];
      i + 1
  }

  /** The level that applies to a name. */
  function LevelFor(ms: seq<Module>, name: string, default: int): int {
    var i := Scan(ms, name);
    if i < |ms| then ms[i].level else default
  }

  function SetExact(ms: seq<Module>, pattern: string, level: int): (r: seq<Module>)
    ensures |r| == |ms|
    ensures forall i :: 0 <= i < |ms| ==> r[i] == if ms[i].pattern == pattern then Module(pattern, level) else ms[i]
  {
    seq(|ms|, i requires 0 <= i < |ms| => if ms[i].pattern == pattern then Module(pattern, level) else ms[i])
  }

  /** The list when the first `i` modules have been looked at. */
  predicate HalfSet(was: seq<Module>, now: seq<Module>, pattern: string, level: int, i: nat) {
    && |now| == |was|
    && forall j :: 0 <= j < |was| ==> now[j] == if j < i && was[j].pattern == pattern then Module(pattern, level) else was[j]
  }

  lemma HalfSetDone(was: seq<Module>, now: seq<Module>, pattern: string, level: int)
    requires HalfSet(was, now, pattern, level, |was|)
    ensures now == SetExact(was, pattern, level)
  {
  }

  /** The scan by its next step. */
  lemma ScanAt(ms: seq<Module>, name: string, i: nat)
    requires i < |ms|
    ensures Scan(ms, name) <= i <==> Scan(ms, name) < i || FnMatch(ms[i].pattern, name)
  {
  }

  /** What `SetVLOGLevel` makes of the module list. */
  function SetModules(ms: seq<Module>, pattern: string, level: int): seq<Module> {
    if Scan(ms, pattern) < |ms| then SetExact(ms, pattern, level) else [Module(pattern, level)] + ms
  }

  /**
   When does `SetVLOGLevel(pattern, level)` make `level` apply to a name that the pattern matches?
   Always if no module matches the pattern text.  Otherwise no module is added, and exactly when the
   module that applies to the name is one of this very pattern, or has the level anyway (as the
   default may, if no module applies).
   */
  lemma SetTakesEffectOn(ms: seq<Module>, pattern: string, level: int, name: string, default: int)
    requires FnMatch(pattern, name)
    ensures LevelFor(SetModules(ms, pattern, level), name, default) == level <==>
            var j := Scan(ms, name);
            Scan(ms, pattern) == |ms| || (if j == |ms| then default == level else ms[j].pattern == pattern || ms[j].level == level)
  {
    var r := SetModules(ms, pattern, level);
    if Scan(ms, pattern) < |ms| {
      assert forall j :: 0 <= j < |ms| ==> r[j].pattern == ms[j].pattern;
      ScanIs(r, name, Scan(ms, name));
    } else {
      ScanIs(r, name, 0);
    }
  }

  /** In particular for the name that is the pattern text: only an earlier, different pattern with another level swallows the request. */
  lemma SetTakesEffect(ms: seq<Module>, pattern: string, level: int, default: int)
    ensures LevelFor(SetModules(ms, pattern, level), pattern, default) == level <==>
            var i := Scan(ms, pattern);
            i == |ms| || ms[i].pattern == pattern || ms[i].level == level
  {
    MatchesItself(pattern);
    SetTakesEffectOn(ms, pattern, level, pattern, default);
  }

  /** A request that is swallowed. */
  lemma SwallowedExample()
    ensures LevelFor(SetModules([Module("foo*", 1)], "foobar", 5), "foobar", 0) == 1
  {
    var ms := [Module("foo*", 1)];
    assert FnMatch("foo*", "foobar") by {
      var p, s := "foo*", "foobar";
      assert p[1..] == "oo*" && s[1..] == "oobar";
      assert p[1..][1..] == "o*" && s[1..][1..] == "obar";
      assert p[1..][1..][1..] == "*" && s[1..][1..][1..] == "bar";
    }
    SetTakesEffect(ms, "foobar", 5, 0);
  }

  /** A module has exactly this pattern and gets the level, yet a name that the pattern matches keeps another module's. */
  lemma OvertakenExample()
    ensures FnMatch("foo?", "fooa")
    ensures LevelFor(SetModules([Module("*a", 1), Module("foo?", 2)], "foo?", 5), "fooa", 0) == 1
  {
    var ms := [Module("*a", 1), Module("foo?", 2)];
    var p, s := "foo?", "fooa";
    assert p[1..] == "oo?" && s[1..] == "ooa";
    assert p[1..][1..] == "o?" && s[1..][1..] == "oa";
    assert p[1..][1..][1..] == "?" && s[1..][1..][1..] == "a";
    assert p[1..][1..][1..][1..] == "" && s[1..][1..][1..][1..] == "";
    var q := "*a";
    assert q[1..] == "a" && s[3..] == "a" && FnMatch("a", "a");
    SuffixFound("a", s, 3);
    assert FnMatch(q, s);
    MatchesItself(p);
    assert !FnMatch("*a", "foo?") by {
      if SomeSuffix("a", "foo?") {
        var k := SuffixWitness("a", "foo?");
        assert false;
      }
    }
    assert Scan(ms, "foo?") == 1 by { ScanIs(ms, "foo?", 1); }
    ScanIs(ms, s, 0);
    SetTakesEffectOn(ms, p, 5, s, 0);
    var r := SetModules(ms, p, 5);
    ScanIs(r, s, 0);
  }

  /** Setting a level changes nothing for names that neither the new pattern nor a re-levelled one matches. */
  lemma SetLeavesOthers(ms: seq<Module>, pattern: string, level: int, name: string, default: int)
    requires !FnMatch(pattern, name)
    ensures LevelFor(SetModules(ms, pattern, level), name, default) == LevelFor(ms, name, default)
  {
    if Scan(ms, pattern) < |ms| {
      ExactLeavesOthers(ms, pattern, level, name);
    } else {
      AddedLeavesOthers(ms, Module(pattern, level), name);
    }
  }

  lemma ExactLeavesOthers(ms: seq<Module>, pattern: string, level: int, name: string)
    requires !FnMatch(pattern, name)
    ensures var r, i := SetExact(ms, pattern, level), Scan(ms, name); Scan(r, name) == i && (i < |ms| ==> r[i] == ms[i])
  {
    var r := SetExact(ms, pattern, level);
    assert forall j :: 0 <= j < |ms| ==> r[j].pattern == ms[j].pattern;
    ScanIs(r, name, Scan(ms, name));
  }

  lemma AddedLeavesOthers(ms: seq<Module>, m: Module, name: string)
    requires !FnMatch(m.pattern, name)
    ensures var r, i := [m] + ms, Scan(ms, name); Scan(r, name) == i + 1 && (i < |ms| ==> r[i + 1] == ms[i])
  {
    ScanAppend([m], ms, name);
  }

  lemma ScanIs(ms: seq<Module>, name: string, i: nat)
    requires i <= |ms| && (i < |ms| ==> FnMatch(ms[i].pattern, name))
    requires forall j :: 0 <= j < i ==> !FnMatch(ms[j].pattern, name)
    ensures Scan(ms, name) == i
  {
  }

  lemma {:induction false} ScanAppend(xs: seq<Module>, ms: seq<Module>, name: string)
    requires forall j :: 0 <= j < |xs| ==> !FnMatch(xs[j].pattern, name)
    ensures Scan(xs + ms, name) == |xs| + Scan(ms, name)
  {
    if xs == [] {
      assert xs + ms == ms;
    } else {
      assert (xs + ms)[1..] == xs[1..] + ms;
      ScanAppend(xs[1..], ms, name);
    }
  }

  // ---------- Base names ----------

  /** `strrchr(fname, '/') + 1`, or all of it. */
  function AfterLastSlash(fname: string): (r: string)
    ensures '/' !in r
  {
    if fname == [] then []
    else
      var rest := AfterLastSlash(fname[1..]);
      if '/' in fname[1..] || fname[0] == '/' then rest else [fname[0]] + rest
  }

  function BeforeFirstDot(s: string): (r: string)
    ensures '.' !in r && |r| <= |s| && forall c :: c in r ==> c in s
  {
    if s == [] || s[0] == '.' then [] else [s[0]] + BeforeFirstDot(s[1..])
  }

  /** The name that patterns are matched against: no directory, no extension, no trailing `-inl`. */
  function BaseName(fname: string): (r: string)
    ensures '/' !in r && '.' !in r
  {
    var base := BeforeFirstDot(AfterLastSlash(fname));
    var n := |base|;
    if n >= 4 && base[n - 4..] == "-inl" then base[..n - 4] else base
  }

  lemma {:induction false} NoSlash(t: string)
    requires '/' !in t
    ensures AfterLastSlash(t) == t
  {
    if t != [] {
      NoSlash(t[1..]);
    }
  }

  lemma {:induction false} LastSlash(dir: string, t: string)
    requires '/' !in t
    ensures AfterLastSlash(dir + "/" + t) == t
  {
    var whole := dir + "/" + t;
    if dir == [] {
      assert whole[1..] == t && whole[0] == '/';
      NoSlash(t);
    } else {
      assert whole[1..] == dir[1..] + "/" + t;
      assert whole[1..][|dir| - 1] == '/';
      LastSlash(dir[1..], t);
    }
  }

  lemma {:induction false} FirstDot(base: string, rest: string)
    requires '.' !in base && (rest == [] || rest[0] == '.')
    ensures BeforeFirstDot(base + rest) == base
  {
    if base == [] {
      assert base + rest == rest;
    } else {
      assert (base + rest)[1..] == base[1..] + rest;
      FirstDot(base[1..], rest);
    }
  }

  /** A path that ends in `base` and an extension, with or without a directory, with or without the extension. */
  predicate IsPath(fname: string, dir: string, base: string, rest: string) {
    && (fname == base + rest || fname == dir + "/" + (base + rest))
    && '/' !in base && '.' !in base
    && '/' !in rest && (rest == [] || rest[0] == '.')
  }

  /** The name of a file is its base without one trailing `-inl`, and all of the base if it has none. */
  lemma BaseNameOfPath(fname: string, dir: string, stem: string, rest: string)
    ensures IsPath(fname, dir, stem + "-inl", rest) ==> BaseName(fname) == stem
    ensures IsPath(fname, dir, stem, rest) && (forall t: string :: t + "-inl" != stem) ==> BaseName(fname) == stem
  {
    if IsPath(fname, dir, stem + "-inl", rest) {
      PathBase(fname, dir, stem + "-inl", rest);
      assert (stem + "-inl")[|stem|..] == "-inl" && (stem + "-inl")[..|stem|] == stem;
    }
    if IsPath(fname, dir, stem, rest) {
      PathBase(fname, dir, stem, rest);
      if |stem| >= 4 {
        assert stem[..|stem| - 4] + stem[|stem| - 4..] == stem;
      }
    }
  }

  lemma PathBase(fname: string, dir: string, base: string, rest: string)
    requires IsPath(fname, dir, base, rest)
    ensures BeforeFirstDot(AfterLastSlash(fname)) == base
  {
    NoSlash(base + rest);
    LastSlash(dir, base + rest);
    FirstDot(base, rest);
  }

  // ---------- The registry ----------

  class VModule {
    const pattern: string
    var level: int

    constructor (pattern: string, level: int)
      ensures this.pattern == pattern && this.level == level
    {
      this.pattern, this.level := pattern, level;
    }
  }

  /** What a site's level pointer points to. */
  datatype LevelPtr = Unset | Default | Override(m: VModule)

  /** A log statement, in a fixed source file. */
  class Site {
    const fname: string
    const base: string   // BaseName(fname)
    var level: LevelPtr
    var named: bool   // base_name has been set

    constructor (fname: string)
      ensures this.fname == fname && base == BaseName(fname) && level.Unset? && !named
    {
      this.fname, base, level, named := fname, BaseName(fname), Unset, false;
    }
  }

  ghost function Values(ms: seq<VModule>): (r: seq<Module>)
    reads ms
    ensures |r| == |ms| && forall i :: 0 <= i < |ms| ==> r[i] == Module(ms[i].pattern, ms[i].level)
  {
    seq(|ms|, i requires 0 <= i < |ms| reads ms => Module(ms[i].pattern, ms[i].level))
  }

  /** Some module of the list matches the name. */
  ghost predicate Matched(ms: seq<VModule>, name: string) {
    exists i :: 0 <= i < |ms| && FnMatch(ms[i].pattern, name)
  }

  ghost predicate Distinct<T>(s: seq<T>) {
    forall i, j :: 0 <= i < j < |s| ==> s[i] != s[j]
  }

  /** Module `k` is the first that matches the name. */
  ghost predicate IsFirst(ms: seq<VModule>, k: nat, name: string) {
    k < |ms| && FnMatch(ms[k].pattern, name) && forall j :: 0 <= j < k ==> !FnMatch(ms[j].pattern, name)
  }

  /** A level pointer is what a scan of the list would give: no module in front of its own matches. */
  ghost predicate PointsRight(ms: seq<VModule>, level: LevelPtr, name: string) {
    match level
    case Unset => false
    case Default => !Matched(ms, name)
    case Override(m) => exists k :: 0 <= k < |ms| && ms[k] == m && IsFirst(ms, k, name)
  }

  /** Where `SetVLOGLevel` leaves a pointer when it puts a module in front. */
  function Redirected(info: VModule, level: LevelPtr, name: string): LevelPtr {
    if level.Default? && FnMatch(info.pattern, name) then Override(info) else level
  }

  /** Putting a module in front spoils a right pointer exactly if it already points to a module and the new one matches too. */
  lemma PrependSpoils(info: VModule, ms: seq<VModule>, level: LevelPtr, name: string)
    requires info !in ms && PointsRight(ms, level, name)
    ensures PointsRight([info] + ms, Redirected(info, level, name), name) <==>
            !(level.Override? && FnMatch(info.pattern, name))
  {
    var all := [info] + ms;
    assert all[0] == info && forall k :: 0 <= k < |ms| ==> all[k + 1] == ms[k];
    if FnMatch(info.pattern, name) {
      assert IsFirst(all, 0, name);
    } else if level.Override? {
      var k :| 0 <= k < |ms| && ms[k] == level.m && IsFirst(ms, k, name);
      assert IsFirst(all, k + 1, name);
    }
  }

  class Registry {
    var modules: seq<VModule>   // vmodule_list
    var cached: seq<Site>       // cached_site_list
    var inited: bool            // inited_vmodule
    var flagV: int              // FLAGS_v
    ghost var sites: set<Site>  // the sites initialised so far

    /** A site on the default level is on the list; a site on a module's level is matched by that module. */
    ghost predicate SiteOk(s: Site)
      reads this, s
    {
      && !s.level.Unset?
      && (s.level.Default? ==> s in cached)
      && (s.level.Override? ==> s.level.m in modules && FnMatch(s.level.m.pattern, s.base))
      && (s.named ==> s in cached || Matched(modules, s.base))
    }

    ghost predicate CachedOk()
      reads this, sites
    {
      && Distinct(cached)
      && (forall s :: s in cached ==> s in sites && s.level.Default? && s.named && !Matched(modules, s.base))
    }

    ghost predicate Valid()
      reads this, sites
    {
      && Distinct(modules)
      && (!inited ==> sites == {})
      && CachedOk()
      && (forall s :: s in sites ==> SiteOk(s))
    }

    constructor (flagV: int)
      ensures Valid() && modules == [] && cached == [] && sites == {} && !inited && this.flagV == flagV
    {
      modules, cached, inited, sites, this.flagV := [], [], false, {}, flagV;
    }

    /** The cached pointers agree with a fresh scan of the list about who is on the default level. */
    lemma DefaultAgrees(s: Site)
      requires Valid() && s in sites
      ensures s.level.Default? <==> Scan(Values(modules), s.base) == |modules|
    {
      assert SiteOk(s);
      if s.level.Override? {
        var k :| 0 <= k < |modules| && modules[k] == s.level.m;
        assert Values(modules)[k].pattern == s.level.m.pattern;
      } else {
        var i := Scan(Values(modules), s.base);
        assert i < |modules| ==> Matched(modules, s.base);
      }
    }

    /** The level that controls the site now. */
    function LevelOf(s: Site): int
      reads this, s, if s.level.Override? then {s.level.m} else {}
    {
      if s.level.Override? then s.level.m.level else flagV
    }

    /** The site points to the level that a fresh scan of the list would find. */
    ghost predicate Agrees(s: Site)
      reads this, s, modules
    {
      var i := Scan(Values(modules), s.base);
      s.level == if i < |modules| then Override(modules[i]) else Default
    }

    /**
     Who is on the default level always agrees with a scan.  A site on a module's level agrees exactly
     as long as no module in front of its own matches it; it is never looked up again.
     */
    lemma AgreesExactly(s: Site)
      requires Valid() && s in sites
      ensures Agrees(s) <==> PointsRight(modules, s.level, s.base)
      ensures s.level.Default? ==> Agrees(s)
    {
      DefaultAgrees(s);
      assert SiteOk(s);
      var v := Values(modules);
      var i := Scan(v, s.base);
      assert forall j :: 0 <= j < |v| ==> v[j].pattern == modules[j].pattern;
      if s.level.Override? && PointsRight(modules, s.level, s.base) {
        var k :| 0 <= k < |modules| && IsFirst(modules, k, s.base) && modules[k] == s.level.m;
        ScanIs(v, s.base, k);
      }
      assert i < |modules| && s.level == Override(modules[i]) ==> IsFirst(modules, i, s.base);
    }

    /** The scan of `InitVLOG3__`. */
    method Lookup(name: string) returns (i: nat)
      ensures i == Scan(Values(modules), name)
    {
      i := 0;
      while i < |modules|
        invariant i <= |modules|
        invariant forall j :: 0 <= j < i ==> !FnMatch(modules[j].pattern, name)
      {
        var found := SafeFNMatch(modules[i].pattern, name);
        if found {
          break;
        }
        i := i + 1;
      }
      ScanIs(Values(modules), name, i);
    }

    /** `VLOG2Initializer`: the modules of the parsed --vmodule flag go in front of the list, in order. */
    method ReadFlag(flag: seq<Module>)
      requires Valid() && !inited
      modifies this`modules, this`inited
      ensures Valid() && inited
      ensures Values(modules) == flag + old(Values(modules))
    {
      var head := NewModules(flag);
      DistinctAppend(head, modules);
      ValuesAppend(head, modules);
      modules := head + modules;
      inited := true;
      assert forall s :: s in cached ==> s in sites;
    }

    /**
     `InitVLOG3__`: the level that the linear scan finds decides the answer.  Once the flag has been read,
     the site also remembers where that level lives, and joins the list if it is the default level.
     */
    method InitSite(site: Site, flag: seq<Module>, verbose: int) returns (on: bool)
      requires Valid() && (site !in sites ==> site.level.Unset? && !site.named)
      modifies this, site
      ensures Valid() && inited && sites == (if old(inited) then old(sites) + {site} else old(sites))
      ensures old(inited) ==> modules == old(modules) && Values(modules) == old(Values(modules))
      ensures !old(inited) ==> Values(modules) == flag + old(Values(modules))
      ensures on <==> LevelFor(Values(modules), site.base, flagV) >= verbose
      ensures old(inited) ==> site.level == var i := Scan(Values(modules), site.base);
                                            if i < |modules| then Override(modules[i]) else Default
      ensures !old(inited) ==> site.level == old(site.level)
    {
      var readFlag := inited;
      if !readFlag {
        ReadFlag(flag);
      }
      var i := Lookup(site.base);
      on := (if i < |modules| then modules[i].level else flagV) >= verbose;
      ghost var v := Values(modules);
      if readFlag {
        Remember(site, i);
        assert Values(modules) == v;
      }
    }

    /** The first loop of `SetVLOGLevel`: exact patterns get the new level; the first match gives the old one. */
    method SetExactPatterns(pattern: string, level: int) returns (result: int, found: bool)
      requires Distinct(modules)
      modifies modules
      ensures Values(modules) == SetExact(old(Values(modules)), pattern, level)
      ensures found <==> Scan(old(Values(modules)), pattern) < |modules|
      ensures result == LevelFor(old(Values(modules)), pattern, flagV)
    {
      result, found := flagV, false;
      ghost var was := Values(modules);
      MatchesItself(pattern);
      var i := 0;
      while i < |modules|
        invariant i <= |modules| && HalfSet(was, Values(modules), pattern, level, i)
        invariant found <==> Scan(was, pattern) < i
        invariant result == if found then LevelFor(was, pattern, flagV) else flagV
      {
        ScanAt(was, pattern, i);
        result, found := SetOne(i, pattern, level, result, found);
        i := i + 1;
      }
      HalfSetDone(was, Values(modules), pattern, level);
    }

    /** The body of the loop. */
    method SetOne(i: nat, pattern: string, level: int, result: int, found: bool) returns (result': int, found': bool)
      requires Distinct(modules) && i < |modules|
      modifies modules[i]
      ensures var m := old(Values(modules))[i];
              && Values(modules) == old(Values(modules))[i := if m.pattern == pattern then Module(pattern, level) else m]
              && var hit := m.pattern == pattern || FnMatch(m.pattern, pattern);
                 found' == (found || hit) && result' == if !found && hit then m.level else result
    {
      var info := modules[i];
      ghost var v := Values(modules);
      result', found' := result, found;
      if info.pattern == pattern {
        if !found {
          result', found' := info.level, true;
        }
        info.level := level;
        assert Values(modules) == v[i := Module(pattern, level)];
      } else if !found {
        var hit := SafeFNMatch(info.pattern, pattern);
        if hit {
          result', found' := info.level, true;
        }
      }
    }

    /** The second loop of `SetVLOGLevel`: matching sites leave the list and follow the new module. */
    method Redirect(info: VModule)
      requires Distinct(cached) && forall s :: s in cached ==> s in sites
      modifies this`cached, sites
      ensures cached == Unmatched(old(cached), info.pattern)
      ensures forall s :: s in sites ==> s.named == old(s.named)
      ensures forall s :: s in sites ==> s.level == if s in old(cached) && FnMatch(info.pattern, s.base)
                                                    then Override(info) else old(s.level)
    {
      var kept: seq<Site> := [];
      var i := 0;
      while i < |cached|
        invariant i <= |cached| && cached == old(cached) && kept == Unmatched(cached[..i], info.pattern)
        invariant forall s :: s in sites ==> s.named == old(s.named)
        invariant forall s :: s in sites ==> s.level == if s in cached[..i] && FnMatch(info.pattern, s.base)
                                                        then Override(info) else old(s.level)
      {
        var item := cached[i];
        UnmatchedNext(cached, i, info.pattern);
        assert cached[..i + 1] == cached[..i] + [item];
        var hit := SafeFNMatch(info.pattern, item.base);
        if hit {
          item.level := Override(info);
        } else {
          kept := kept + [item];
        }
        i := i + 1;
      }
      assert cached[..i] == cached;
      cached := kept;
    }

    /**
     `SetVLOGLevel`: returns the level that applied to the pattern.  Only when no module matched it is a
     module added, and then exactly the listed sites that it matches are redirected to it.
     */
    method SetLevel(pattern: string, level: int) returns (result: int)
      requires Valid()
      modifies this, modules, sites
      ensures Valid() && sites == old(sites) && inited == old(inited) && flagV == old(flagV)
      ensures result == LevelFor(old(Values(modules)), pattern, flagV)
      ensures Values(modules) == SetModules(old(Values(modules)), pattern, level)
      ensures Scan(old(Values(modules)), pattern) < |old(modules)| ==>
                modules == old(modules) && cached == old(cached) && forall s :: s in sites ==> s.level == old(s.level)
      ensures Scan(old(Values(modules)), pattern) == |old(modules)| ==>
                && |modules| > 0 && fresh(modules[0]) && modules[1..] == old(modules) && cached == Unmatched(old(cached), pattern)
                && forall s :: s in sites ==> s.level == if s in old(cached) && FnMatch(pattern, s.base)
                                                         then Override(modules[0]) else old(s.level)
      ensures forall s :: s in sites && old(PointsRight(modules, s.level, s.base)) ==>
                (PointsRight(modules, s.level, s.base) <==>
                 !(Scan(old(Values(modules)), pattern) == |old(modules)| && old(s.level).Override? && FnMatch(pattern, s.base)))
      // Live sites: a site bound to a module gets the level exactly if that module is of this pattern or has
      // the level already; one on the default level, exactly if a module is added or the default is this level.
      ensures forall s :: s in sites && FnMatch(pattern, s.base) ==>
                (LevelOf(s) == level <==>
                 if old(s.level).Override? then old(s.level).m.pattern == pattern || old(LevelOf(s)) == level
                 else Scan(old(Values(modules)), pattern) == |old(modules)| || flagV == level)
      ensures forall s :: s in sites && !FnMatch(pattern, s.base) ==> LevelOf(s) == old(LevelOf(s))
    {
      ghost var was, v := modules, Values(modules);
      result := SetModulesAndList(pattern, level);
      forall s | s in sites
        ensures FnMatch(pattern, s.base) ==>
                  (LevelOf(s) == level <==>
                   if old(s.level).Override? then old(s.level).m.pattern == pattern || old(LevelOf(s)) == level
                   else Scan(v, pattern) == |was| || flagV == level)
        ensures !FnMatch(pattern, s.base) ==> LevelOf(s) == old(LevelOf(s))
      {
        assert old(SiteOk(s));
        if old(s.level).Override? {
          ghost var k :| 0 <= k < |was| && was[k] == old(s.level).m;
          assert v[k] == Module(was[k].pattern, old(LevelOf(s)));
          ModuleKept(was, v, pattern, level, modules, k);
        }
      }
    }

    /** The module list and the site list after `SetVLOGLevel`. */
    method SetModulesAndList(pattern: string, level: int) returns (result: int)
      requires Valid()
      modifies this, modules, sites
      ensures Valid() && sites == old(sites) && inited == old(inited) && flagV == old(flagV)
      ensures result == LevelFor(old(Values(modules)), pattern, flagV)
      ensures Values(modules) == SetModules(old(Values(modules)), pattern, level)
      ensures Scan(old(Values(modules)), pattern) < |old(modules)| ==>
                modules == old(modules) && cached == old(cached) && forall s :: s in sites ==> s.level == old(s.level)
      ensures Scan(old(Values(modules)), pattern) == |old(modules)| ==>
                && |modules| > 0 && fresh(modules[0]) && modules[1..] == old(modules) && cached == Unmatched(old(cached), pattern)
                && forall s :: s in sites ==> s.level == if s in old(cached) && FnMatch(pattern, s.base)
                                                         then Override(modules[0]) else old(s.level)
      ensures forall s :: s in sites && old(PointsRight(modules, s.level, s.base)) ==>
                (PointsRight(modules, s.level, s.base) <==>
                 !(Scan(old(Values(modules)), pattern) == |old(modules)| && old(s.level).Override? && FnMatch(pattern, s.base)))
    {
      var found;
      result, found := SetExactPatterns(pattern, level);
      if !found {
        ghost var v := Values(modules);
        assert v == old(Values(modules)) by {
          assert forall j :: 0 <= j < |v| ==> !FnMatch(old(Values(modules))[j].pattern, pattern);
          MatchesItself(pattern);
        }
        AddModule(pattern, level);
      }
    }

    method AddModule(pattern: string, level: int)
      requires Valid()
      modifies this`modules, this`cached, sites
      ensures Valid()
      ensures |modules| > 0 && fresh(modules[0]) && modules[1..] == old(modules) && cached == Unmatched(old(cached), pattern)
      ensures Values(modules) == [Module(pattern, level)] + old(Values(modules))
      ensures forall s :: s in sites ==> s.level == if s in old(cached) && FnMatch(pattern, s.base)
                                                    then Override(modules[0]) else old(s.level)
      ensures forall s :: s in sites && old(PointsRight(modules, s.level, s.base)) ==>
                (PointsRight(modules, s.level, s.base) <==> !(old(s.level).Override? && FnMatch(pattern, s.base)))
    {
      var info := new VModule(pattern, level);
      ValuesCons(info, modules);
      ghost var was := modules;
      Prepend(info);
      forall s | s in sites && old(PointsRight(modules, s.level, s.base))
        ensures PointsRight(modules, s.level, s.base) <==> !(old(s.level).Override? && FnMatch(pattern, s.base))
      {
        PrependSpoils(info, was, old(s.level), s.base);
      }
    }

    /** Put a new module at the front of the list and redirect the sites that it matches. */
    method Prepend(info: VModule)
      requires Valid() && info !in modules
      modifies this`modules, this`cached, sites
      ensures Valid() && modules == [info] + old(modules)
      ensures cached == Unmatched(old(cached), info.pattern)
      ensures forall s :: s in sites ==> s.level == if s in old(cached) && FnMatch(info.pattern, s.base)
                                                    then Override(info) else old(s.level)
      ensures forall s :: s in sites ==> s.level == Redirected(info, old(s.level), s.base)
    {
      ghost var was := modules;
      modules := [info] + modules;
      DistinctCons(info, was);
      UnmatchedDistinct(cached, info.pattern);
      ghost var listed := cached;
      Redirect(info);
      forall s | s in sites ensures SiteOk(s) {
        assert old(SiteOk(s));
        UnmatchedMembers(listed, info.pattern, s);
        NewModuleMatches(info, was, s);
      }
      forall s | s in cached ensures s in listed && !Matched(modules, s.base) {
        UnmatchedMembers(listed, info.pattern, s);
        NewModuleMatches(info, was, s);
      }
    }

    method Remember(site: Site, i: nat)
      requires Valid() && inited && (site !in sites ==> site.level.Unset? && !site.named)
      requires i == Scan(Values(modules), site.base)
      modifies this`cached, this`sites, site
      ensures Valid() && sites == old(sites) + {site}
      ensures site.level == if i < |modules| then Override(modules[i]) else Default
    {
      ghost var base := site.base;
      assert i == |modules| <==> !Matched(modules, base);
      ghost var was := cached;
      site.level := if i < |modules| then Override(modules[i]) else Default;
      if i == |modules| && !site.named {
        site.named := true;
        cached := [site] + cached;
      }
      sites := sites + {site};
    }
  }

  lemma StarFacts()
    ensures FnMatch("a*", "ab") && FnMatch("*b", "ab") && !FnMatch("a*", "*b")
    ensures BaseName("ab") == "ab"
  {
    var p, q, s := "a*", "*b", "ab";
    assert p[1..] == "*" && s[1..] == "b" && q[1..] == "b" && s[1..][1..] == "";
    assert FnMatch("b", "b") by { MatchesItself("b"); }
    SuffixFound("b", s, 1);
    assert AfterLastSlash("b") == "b" && AfterLastSlash(s) == s;
    assert BeforeFirstDot("b") == "b" && BeforeFirstDot(s) == s;
  }

  /** A registry that has read an empty flag, and then been given the one module `a*`. */
  method OneModule() returns (r: Registry)
    ensures fresh(r) && fresh(r.sites) && fresh(r.modules) && r.Valid() && r.inited
    ensures |r.modules| == 1 && r.modules[0].pattern == "a*"
  {
    r := new Registry(0);
    var first := new Site("first");
    var on := r.InitSite(first, [], 1);
    assert |Values(r.modules)| == 0;
    var was := r.SetLevel("a*", 1);
    assert Values(r.modules)[0] == Module("a*", 1);
  }

  /** A site bound to that module. */
  method Bound() returns (r: Registry, site: Site)
    ensures fresh(r) && fresh(site) && fresh(r.sites) && fresh(r.modules)
    ensures r.Valid() && site in r.sites && site.base == "ab"
    ensures |r.modules| == 1 && r.modules[0].pattern == "a*" && site.level == Override(r.modules[0])
  {
    StarFacts();
    r := OneModule();
    site := new Site("ab");
    assert site !in r.sites && site.base == "ab";
    assert Scan(Values(r.modules), "ab") == 0;
    var on := r.InitSite(site, [], 1);
  }

  /**
   A run that leaves a pointer stale: the site is bound to the module for `a*`; then `*b`, which matches
   it too, goes in front, and a scan would find that one.
   */
  method StaleExample() returns (r: Registry, site: Site)
    ensures fresh(r) && fresh(site) && r.Valid() && site in r.sites
    ensures !r.Agrees(site)
  {
    StarFacts();
    r, site := Bound();
    assert IsFirst(r.modules, 0, "ab");
    assert PointsRight(r.modules, site.level, site.base);
    assert Scan(Values(r.modules), "*b") == 1;
    var was := r.SetLevel("*b", 2);
    r.AgreesExactly(site);
  }

  /** The modules of a parsed flag, in order. */
  method NewModules(flag: seq<Module>) returns (head: seq<VModule>)
    ensures Values(head) == flag && Distinct(head) && fresh(head)
  {
    head := [];
    for i := 0 to |flag|
      invariant |head| == i && Values(head) == flag[..i]
      invariant fresh(head) && Distinct(head)
    {
      var m := new VModule(flag[i].pattern, flag[i].level);
      ValuesAppend(head, [m]);
      DistinctAppend(head, [m]);
      head := head + [m];
    }
    assert flag[..|flag|] == flag;
  }

  lemma ValuesAppend(head: seq<VModule>, ms: seq<VModule>)
    ensures Values(head + ms) == Values(head) + Values(ms)
  {
  }

  lemma DistinctAppend<T>(s: seq<T>, t: seq<T>)
    requires Distinct(s) && Distinct(t) && forall x :: x in s ==> x !in t
    ensures Distinct(s + t)
  {
    forall i, j | 0 <= i < j < |s + t| ensures (s + t)[i] != (s + t)[j] {
      if i < |s| <= j {
        assert s[i] in s && t[j - |s|] in t;
      }
    }
  }

  /** The sites of a list that a pattern does not match, in order. */
  ghost function Unmatched(ss: seq<Site>, pattern: string): seq<Site> {
    if ss == [] then []
    else
      var rest := Unmatched(ss[..|ss| - 1], pattern);
      var last := ss[|ss| - 1];
      if FnMatch(pattern, last.base) then rest else rest + [last]
  }

  lemma {:induction false} UnmatchedMembers(ss: seq<Site>, pattern: string, s: Site)
    ensures s in Unmatched(ss, pattern) <==> s in ss && !FnMatch(pattern, s.base)
  {
    if ss != [] {
      UnmatchedMembers(ss[..|ss| - 1], pattern, s);
      assert ss == ss[..|ss| - 1] + [ss[|ss| - 1]];
    }
  }

  lemma UnmatchedNext(ss: seq<Site>, i: nat, pattern: string)
    requires i < |ss|
    ensures Unmatched(ss[..i + 1], pattern) ==
            if FnMatch(pattern, ss[i].base) then Unmatched(ss[..i], pattern) else Unmatched(ss[..i], pattern) + [ss[i]]
  {
    assert ss[..i + 1][..i] == ss[..i];
  }

  lemma {:induction false} UnmatchedDistinct(ss: seq<Site>, pattern: string)
    requires Distinct(ss)
    ensures Distinct(Unmatched(ss, pattern))
  {
    if ss != [] {
      UnmatchedDistinct(ss[..|ss| - 1], pattern);
      UnmatchedMembers(ss[..|ss| - 1], pattern, ss[|ss| - 1]);
      assert ss[|ss| - 1] !in ss[..|ss| - 1];
    }
  }

  /** A module that was on the list has the new level if it is of this pattern, and its own otherwise. */
  lemma ModuleKept(was: seq<VModule>, v: seq<Module>, pattern: string, level: int, now: seq<VModule>, k: nat)
    requires |v| == |was| && k < |was| && v[k].pattern == was[k].pattern
    requires Values(now) == SetModules(v, pattern, level)
    requires if Scan(v, pattern) < |v| then now == was else |now| > 0 && now[1..] == was
    ensures was[k].level == if was[k].pattern == pattern then level else v[k].level
  {
    if Scan(v, pattern) < |v| {
      assert Values(now)[k] == Module(was[k].pattern, was[k].level);
    } else {
      MatchesItself(pattern);
      assert Values(now)[k + 1] == v[k] && now[k + 1] == now[1..][k] == was[k];
    }
  }

  lemma ValuesCons(info: VModule, ms: seq<VModule>)
    ensures Values([info] + ms) == [Module(info.pattern, info.level)] + Values(ms)
    ensures ([info] + ms)[1..] == ms
  {
  }

  lemma DistinctCons<T>(x: T, s: seq<T>)
    requires Distinct(s) && x !in s
    ensures Distinct([x] + s)
  {
  }

  lemma NewModuleMatches(info: VModule, ms: seq<VModule>, s: Site)
    ensures Matched([info] + ms, s.base) <==>
            FnMatch(info.pattern, s.base) || Matched(ms, s.base)
    ensures forall m :: m in ms ==> m in [info] + ms
  {
    var name := s.base;
    assert ([info] + ms)[0] == info;
    if Matched(ms, name) {
      MatchedGrows([info], ms, name);
    }
    if Matched([info] + ms, name) && !FnMatch(info.pattern, name) {
      var i :| 0 <= i < |[info] + ms| && FnMatch(([info] + ms)[i].pattern, name);
      assert ms[i - 1] == ([info] + ms)[i];
    }
  }

  lemma MatchedGrows(head: seq<VModule>, ms: seq<VModule>, name: string)
    requires Matched(ms, name)
    ensures Matched(head + ms, name)
  {
    var i :| 0 <= i < |ms| && FnMatch(ms[i].pattern, name);
    assert (head + ms)[|head| + i] == ms[i];
  }
}
