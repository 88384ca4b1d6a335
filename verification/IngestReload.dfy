/**
 Incremental reload agrees with a fresh start: applying the removed, added and updated events to
 the running ingesters of a vhost leaves what starting with the new configuration would give.
 */
module IngestReload {
  import opened ConfParser
  import opened Ingest
  import opened Pieces

  /** The ingesters of one ingest directive, in list order. */
  function Part(list: seq<Running>, vhost: string, id: string): seq<Running> {
    if list == [] then []
    else (if Is(list[0], vhost, Some(id)) then [list[0]] else []) + Part(list[1..], vhost, id)
  }

  lemma {:induction false} PartConcat(a: seq<Running>, b: seq<Running>, vhost: string, id: string)
    ensures Part(a + b, vhost, id) == Part(a, vhost, id) + Part(b, vhost, id)
  {
    if a == [] {
      assert a + b == b;
    } else {
      hide Is;
      assert a + b == [a[0]] + (a[1..] + b);
      PartConcat(a[1..], b, vhost, id);
      var first := if Is(a[0], vhost, Some(id)) then [a[0]] else [];
      assert first + (Part(a[1..], vhost, id) + Part(b, vhost, id)) == first + Part(a[1..], vhost, id)
          + Part(b, vhost, id);
    }
  }

  lemma {:induction false} PartWithout(list: seq<Running>, gone: string, goneId: string, vhost: string, id: string)
    ensures Part(Without(list, gone, Some(goneId)), vhost, id)
         == if vhost == gone && id == goneId then [] else Part(list, vhost, id)
  {
    if list != [] {
      PartWithout(list[1..], gone, goneId, vhost, id);
      var first := if Is(list[0], gone, Some(goneId)) then [] else [list[0]];
      PartConcat(first, Without(list[1..], gone, Some(goneId)), vhost, id);
    }
  }

  // ---------------------------------------------------------------- what starting adds

  predicate Tagged(list: seq<Running>, vhost: string, id: string) {
    forall r :: r in list ==> r.vhost == vhost && r.id == id
  }

  lemma {:induction false} PartTagged(list: seq<Running>, tag: string, tagId: string, vhost: string, id: string)
    requires Tagged(list, tag, tagId)
    ensures Part(list, vhost, id) == if vhost == tag && id == tagId then list else []
  {
    if list != [] {
      assert list[0] in list && forall r :: r in list[1..] ==> r in list;
      PartTagged(list[1..], tag, tagId, vhost, id);
    }
  }

  lemma {:induction false} StartEnginesAppends(env: Env, list: seq<Running>, bin: string, vhost: string,
      ingest: Directive, i: nat)
    ensures var all, own := StartEngines(env, list, bin, vhost, ingest, i),
            StartEngines(env, [], bin, vhost, ingest, i);
            all.ok == own.ok && all.list == list + own.list && Tagged(own.list, vhost, ingest.Arg0())
    decreases |Engines(ingest)| - i
  {
    hide Initialize;
    if i < |Engines(ingest)| {
      match Initialize(env, bin, vhost, ingest, Some(Engines(ingest)[i])) {
        case None =>
        case Some(f) =>
          var r := [Running(f, vhost, ingest.Arg0())];
          assert [] + r == r;
          StartEnginesAppends(env, list + r, bin, vhost, ingest, i + 1);
          StartEnginesAppends(env, r, bin, vhost, ingest, i + 1);
      }
    }
  }

  /** Starting an ingest directive appends its own ingesters, whatever the list was. */
  lemma StartAppends(env: Env, list: seq<Running>, vhost: string, ingest: Directive)
    ensures var all, own := Start(env, list, vhost, ingest), Start(env, [], vhost, ingest);
            all.ok == own.ok && all.list == list + own.list && Tagged(own.list, vhost, ingest.Arg0())
  {
    hide Initialize, StartEngines;
    StartEnginesAppends(env, list, Setting(ingest, "ffmpeg", ""), vhost, ingest, 0);
  }

  lemma PartStart(env: Env, list: seq<Running>, v: string, ingest: Directive, vhost: string, id: string)
    ensures Part(Start(env, list, v, ingest).list, vhost, id)
         == Part(list, vhost, id) + if vhost == v && id == ingest.Arg0() then Start(env, [], v, ingest).list else []
  {
    hide Start, Part;
    var own := Start(env, [], v, ingest).list;
    StartAppends(env, list, v, ingest);
    PartConcat(list, own, vhost, id);
    PartTagged(own, v, ingest.Arg0(), vhost, id);
  }

  // ---------------------------------------------------------------- equal directives start equal ingesters

  lemma {:induction false} FindFirstSame(a: seq<Directive>, b: seq<Directive>, name: string)
    requires |a| == |b| && forall i :: 0 <= i < |a| ==> SameDirective(a[i], b[i])
    ensures var x, y := FindFirst(a, name, None), FindFirst(b, name, None);
            x.Some? == y.Some? && (x.Some? ==> SameDirective(x.value, y.value))
  {
    if a != [] {
      FindFirstSame(a[1..], b[1..], name);
    }
  }

  lemma {:induction false} NamedSame(a: seq<Directive>, b: seq<Directive>, name: string)
    requires |a| == |b| && forall i :: 0 <= i < |a| ==> SameDirective(a[i], b[i])
    ensures var x, y := Named(a, name), Named(b, name);
            |x| == |y| && forall i :: 0 <= i < |x| ==> SameDirective(x[i], y[i])
  {
    if a != [] {
      NamedSame(a[1..], b[1..], name);
    }
  }

  lemma SettingSame(a: Directive, b: Directive, name: string, default: string)
    requires SameDirective(a, b)
    ensures Setting(a, name, default) == Setting(b, name, default) && a.Arg0() == b.Arg0()
    ensures a.Get(name).Some? == b.Get(name).Some?
    ensures a.Get(name).Some? ==> SameDirective(a.Get(name).value, b.Get(name).value)
  {
    FindFirstSame(a.directives, b.directives, name);
  }

  lemma InputSettingSame(a: Directive, b: Directive, name: string, default: string)
    requires SameDirective(a, b)
    ensures InputSetting(a, name, default) == InputSetting(b, name, default)
  {
    hide SameDirective;
    SettingSame(a, b, "input", default);
    if a.Get("input").Some? {
      SettingSame(a.Get("input").value, b.Get("input").value, name, default);
    }
  }

  lemma InitializeSame(env: Env, bin: string, vhost: string, a: Directive, b: Directive, x: Directive, y: Directive)
    requires SameDirective(a, b) && SameDirective(x, y)
    ensures Initialize(env, bin, vhost, a, Some(x)) == Initialize(env, bin, vhost, b, Some(y))
    ensures Initialize(env, bin, vhost, a, None) == Initialize(env, bin, vhost, b, None)
  {
    hide SameDirective, Setting, InputSetting, Unnumbered;
    InputSettingSame(a, b, "type", "file");
    InputSettingSame(a, b, "url", "");
    SettingSame(x, y, "output", "");
    SettingSame(x, y, "vcodec", "");
    SettingSame(x, y, "acodec", "");
    SettingSame(x, y, "enabled", "off");
    EqualsUpToLines(x, y);
  }

  lemma {:induction false} StartEnginesSame(env: Env, list: seq<Running>, bin: string, vhost: string, a: Directive,
      b: Directive, i: nat)
    requires SameDirective(a, b)
    ensures StartEngines(env, list, bin, vhost, a, i) == StartEngines(env, list, bin, vhost, b, i)
    decreases |Engines(a)| - i
  {
    NamedSame(a.directives, b.directives, "engine");
    hide SameDirective, Initialize, Named;
    if i < |Engines(a)| {
      InitializeSame(env, bin, vhost, a, b, Engines(a)[i], Engines(b)[i]);
      SettingSame(a, b, "", "");
      match Initialize(env, bin, vhost, a, Some(Engines(a)[i])) {
        case None =>
        case Some(f) => StartEnginesSame(env, list + [Running(f, vhost, a.Arg0())], bin, vhost, a, b, i + 1);
      }
    }
  }

  lemma StartSame(env: Env, list: seq<Running>, vhost: string, a: Directive, b: Directive)
    requires SameDirective(a, b)
    ensures Start(env, list, vhost, a) == Start(env, list, vhost, b)
  {
    NamedSame(a.directives, b.directives, "engine");
    hide SameDirective, Initialize, Setting, StartEngines, Named;
    SettingSame(a, b, "enabled", "off");
    SettingSame(a, b, "ffmpeg", "");
    InitializeSame(env, Setting(a, "ffmpeg", ""), vhost, a, b, a, b);
    StartEnginesSame(env, list, Setting(a, "ffmpeg", ""), vhost, a, b, 0);
  }

  // ---------------------------------------------------------------- ids

  /** Some ingest directive from the i-th on has this id. */
  ghost predicate HasFrom(vhost: Directive, i: nat, id: string) {
    exists j :: i <= j < |Ingests(vhost)| && Ingests(vhost)[j].Arg0() == id
  }

  /** How many ingest directives from the i-th on have this id. */
  function CountFrom(vhost: Directive, i: nat, id: string): nat
    decreases |Ingests(vhost)| - i
  {
    if i >= |Ingests(vhost)| then 0
    else (if Ingests(vhost)[i].Arg0() == id then 1 else 0) + CountFrom(vhost, i + 1, id)
  }

  /** What the ingest directives with this id start, from the i-th directive on. */
  function StartsFrom(env: Env, vhost: Directive, i: nat, id: string): seq<Running>
    decreases |Ingests(vhost)| - i
  {
    if i >= |Ingests(vhost)| then []
    else (if Ingests(vhost)[i].Arg0() == id then Start(env, [], vhost.Arg0(), Ingests(vhost)[i]).list else [])
         + StartsFrom(env, vhost, i + 1, id)
  }

  lemma HasFromStep(vhost: Directive, i: nat, id: string)
    requires i < |Ingests(vhost)|
    ensures HasFrom(vhost, i, id) <==> Ingests(vhost)[i].Arg0() == id || HasFrom(vhost, i + 1, id)
  {
    hide Named;
    if HasFrom(vhost, i, id) && Ingests(vhost)[i].Arg0() != id {
      var j :| i <= j < |Ingests(vhost)| && Ingests(vhost)[j].Arg0() == id;
      assert i + 1 <= j;
    }
  }

  lemma {:induction false} CountIsZeroIff(env: Env, vhost: Directive, i: nat, id: string)
    ensures CountFrom(vhost, i, id) == 0 <==> !HasFrom(vhost, i, id)
    ensures !HasFrom(vhost, i, id) ==> StartsFrom(env, vhost, i, id) == []
    decreases |Ingests(vhost)| - i
  {
    hide Named, Start;
    if i < |Ingests(vhost)| {
      HasFromStep(vhost, i, id);
      CountIsZeroIff(env, vhost, i + 1, id);
    }
  }

  function Found(vhost: Directive, id: string): Option<Directive> {
    vhost.GetWithArg("ingest", id)
  }

  lemma {:induction false} NamedHas(ds: seq<Directive>, name: string, f: nat)
    requires f < |Named(ds, name)|
    requires forall j :: 0 <= j < f ==> Named(ds, name)[j].Arg0() != Named(ds, name)[f].Arg0()
    ensures FindFirst(ds, name, Some(Named(ds, name)[f].Arg0())) == Some(Named(ds, name)[f])
  {
    var rest := Named(ds[1..], name);
    if ds[0].name != name {
      assert Named(ds, name) == rest;
      NamedHas(ds[1..], name, f);
    } else {
      assert Named(ds, name) == [ds[0]] + rest;
      if f > 0 {
        forall j | 0 <= j < f - 1
          ensures rest[j].Arg0() != rest[f - 1].Arg0()
        {
          assert rest[j] == Named(ds, name)[j + 1] && rest[f - 1] == Named(ds, name)[f];
        }
        NamedHas(ds[1..], name, f - 1);
        assert Named(ds, name)[0] == ds[0];
      }
    }
  }

  lemma {:induction false} FoundIsNamed(ds: seq<Directive>, name: string, id: string)
    ensures var f := FindFirst(ds, name, Some(id)); f.Some? ==> f.value in Named(ds, name)
  {
    if ds != [] && !Matches(ds[0], name, Some(id)) {
      FoundIsNamed(ds[1..], name, id);
    }
  }

  /** Of the directives before the i-th none has the id. */
  ghost predicate NoneBefore(vhost: Directive, i: nat, id: string) {
    forall j :: 0 <= j < i && j < |Ingests(vhost)| ==> Ingests(vhost)[j].Arg0() != id
  }

  /** Looking an id up finds the first directive with it, and finds something exactly when there is one. */
  lemma FoundIsFirst(vhost: Directive, id: string)
    ensures Found(vhost, id).Some? <==> HasFrom(vhost, 0, id)
    ensures Found(vhost, id).Some? ==> exists f :: 0 <= f < |Ingests(vhost)| && IsFirst(vhost, f, id)
  {
    hide Named;
    FoundIsNamed(vhost.directives, "ingest", id);
    if Found(vhost, id).Some? {
      var j :| 0 <= j < |Ingests(vhost)| && Ingests(vhost)[j] == Found(vhost, id).value;
      assert Ingests(vhost)[j].Arg0() == id;
    }
    if HasFrom(vhost, 0, id) {
      var f := FirstOf(vhost, 0, id);
      NamedHas(vhost.directives, "ingest", f);
      assert IsFirst(vhost, f, id);
    }
  }

  /** The f-th directive is the one that is found under the id. */
  ghost predicate IsFirst(vhost: Directive, f: nat, id: string)
    requires f < |Ingests(vhost)|
  {
    Ingests(vhost)[f].Arg0() == id && NoneBefore(vhost, f, id) && Found(vhost, id) == Some(Ingests(vhost)[f])
  }

  lemma {:induction false} FirstOf(vhost: Directive, i: nat, id: string) returns (f: nat)
    requires HasFrom(vhost, i, id) && NoneBefore(vhost, i, id)
    ensures f < |Ingests(vhost)| && Ingests(vhost)[f].Arg0() == id && NoneBefore(vhost, f, id)
    decreases |Ingests(vhost)| - i
  {
    hide Named;
    if Ingests(vhost)[i].Arg0() == id {
      f := i;
    } else {
      HasFromStep(vhost, i, id);
      f := FirstOf(vhost, i + 1, id);
    }
  }

  /** What a configuration has running for an id when only the directive that is found counts. */
  function Want(env: Env, vhost: Directive, id: string): seq<Running> {
    match Found(vhost, id)
    case None => []
    case Some(d) => Start(env, [], vhost.Arg0(), d).list
  }

  lemma {:induction false} SkipsTo(env: Env, vhost: Directive, i: nat, f: nat, id: string)
    requires i <= f <= |Ingests(vhost)| && NoneBefore(vhost, f, id)
    ensures StartsFrom(env, vhost, i, id) == StartsFrom(env, vhost, f, id)
    ensures CountFrom(vhost, i, id) == CountFrom(vhost, f, id)
    decreases f - i
  {
    hide Named, Start;
    if i < f {
      SkipsTo(env, vhost, i + 1, f, id);
    }
  }

  /** What starts under an id is what the directive that is found starts, and what those behind it start. */
  lemma SplitAtFirst(env: Env, vhost: Directive, f: nat, id: string)
    requires f < |Ingests(vhost)| && IsFirst(vhost, f, id)
    ensures StartsFrom(env, vhost, 0, id) == Want(env, vhost, id) + StartsFrom(env, vhost, f + 1, id)
    ensures CountFrom(vhost, 0, id) == 1 + CountFrom(vhost, f + 1, id)
  {
    hide Named, Start;
    SkipsTo(env, vhost, 0, f, id);
  }

  // ---------------------------------------------------------------- what an enabled directive starts

  lemma {:induction false} EnginesStart(env: Env, bin: string, vhost: string, ingest: Directive, i: nat)
    requires StartEngines(env, [], bin, vhost, ingest, i).ok && i < |Engines(ingest)|
    ensures StartEngines(env, [], bin, vhost, ingest, i).list != []
  {
    hide Initialize;
    var r := [Running(Initialize(env, bin, vhost, ingest, Some(Engines(ingest)[i])).value, vhost, ingest.Arg0())];
    assert [] + r == r;
    StartEnginesAppends(env, r, bin, vhost, ingest, i + 1);
  }

  /** A directive that starts without an error starts something exactly when it is enabled. */
  lemma EnabledStarts(env: Env, vhost: string, ingest: Directive)
    requires Start(env, [], vhost, ingest).ok
    ensures Enabled(ingest) <==> Start(env, [], vhost, ingest).list != []
  {
    hide Initialize, StartEngines, Setting;
    if Enabled(ingest) && Engines(ingest) != [] {
      EnginesStart(env, Setting(ingest, "ffmpeg", ""), vhost, ingest, 0);
    }
  }

  ghost predicate AllStart(env: Env, vhost: Directive) {
    forall j :: 0 <= j < |Ingests(vhost)| ==> Start(env, [], vhost.Arg0(), Ingests(vhost)[j]).ok
  }

  lemma {:induction false} FreshIsAll(env: Env, list: seq<Running>, vhost: Directive, i: nat, j: nat)
    requires StartAll(env, list, vhost.Arg0(), Ingests(vhost), i).ok && i <= j < |Ingests(vhost)|
    ensures Start(env, [], vhost.Arg0(), Ingests(vhost)[j]).ok
    decreases |Ingests(vhost)| - i
  {
    hide Start, Named;
    StartAppends(env, list, vhost.Arg0(), Ingests(vhost)[i]);
    if i < j {
      FreshIsAll(env, Start(env, list, vhost.Arg0(), Ingests(vhost)[i]).list, vhost, i + 1, j);
    }
  }

  lemma StartsAt(env: Env, vhost: Directive, i: nat)
    requires AllStart(env, vhost) && i < |Ingests(vhost)|
    ensures Start(env, [], vhost.Arg0(), Ingests(vhost)[i]).ok
  {
    hide Start, Named;
  }

  lemma StartsStep(env: Env, vhost: Directive, i: nat, id: string)
    ensures StartsFrom(env, vhost, i, id)
         == if i >= |Ingests(vhost)| then []
            else (if Ingests(vhost)[i].Arg0() == id then Start(env, [], vhost.Arg0(), Ingests(vhost)[i]).list else [])
                 + StartsFrom(env, vhost, i + 1, id)
  {
    hide Start, Named;
  }

  lemma FreshStartsAll(env: Env, vhost: Directive)
    requires Fresh(env, vhost).ok
    ensures AllStart(env, vhost)
  {
    hide Start, Named;
    forall j | 0 <= j < |Ingests(vhost)|
      ensures Start(env, [], vhost.Arg0(), Ingests(vhost)[j]).ok
    {
      FreshIsAll(env, [], vhost, 0, j);
    }
  }

  lemma FoundStarts(env: Env, vhost: Directive, id: string)
    requires AllStart(env, vhost) && Found(vhost, id).Some?
    ensures Start(env, [], vhost.Arg0(), Found(vhost, id).value).ok && Found(vhost, id).value.Arg0() == id
  {
    hide Named, Start;
    FoundIsFirst(vhost, id);
  }

  /** Nothing starts under an id exactly when all directives with it are off. */
  lemma {:induction false} NothingStartsIff(env: Env, vhost: Directive, i: nat, id: string)
    requires AllStart(env, vhost)
    ensures StartsFrom(env, vhost, i, id) == [] <==>
            forall j :: i <= j < |Ingests(vhost)| && Ingests(vhost)[j].Arg0() == id ==> !Enabled(Ingests(vhost)[j])
    decreases |Ingests(vhost)| - i
  {
    hide Named, Start, Enabled;
    if i < |Ingests(vhost)| {
      NothingStartsIff(env, vhost, i + 1, id);
      EnabledStarts(env, vhost.Arg0(), Ingests(vhost)[i]);
    }
  }

  // ---------------------------------------------------------------- the parts after each phase

  lemma {:induction false} PartsFresh(env: Env, list: seq<Running>, vhost: Directive, i: nat, v: string, id: string)
    requires AllStart(env, vhost)
    ensures var r := StartAll(env, list, vhost.Arg0(), Ingests(vhost), i);
            r.ok && Part(r.list, v, id) == Part(list, v, id) + if v == vhost.Arg0() then StartsFrom(env, vhost, i, id)
                else []
    decreases |Ingests(vhost)| - i
  {
    hide Start, Part, Named, Found, AllStart, StartsFrom;
    var ds := Ingests(vhost);
    StartsStep(env, vhost, i, id);
    if i < |ds| {
      StartsAt(env, vhost, i);
      StartAppends(env, list, vhost.Arg0(), ds[i]);
      var s := Start(env, list, vhost.Arg0(), ds[i]);
      PartsFresh(env, s.list, vhost, i + 1, v, id);
      PartStart(env, list, vhost.Arg0(), ds[i], v, id);
      var own := if v == vhost.Arg0() && id == ds[i].Arg0() then Start(env, [], vhost.Arg0(), ds[i]).list else [];
      var more := if v == vhost.Arg0() then StartsFrom(env, vhost, i + 1, id) else [];
      assert Part(list, v, id) + own + more == Part(list, v, id) + (own + more);
    }
  }

  lemma {:induction false} PartsRemoved(list: seq<Running>, vhost: Directive, was: Directive, i: nat, v: string,
      id: string)
    ensures Part(AfterRemoved(list, vhost, was, i), v, id)
         == if v == vhost.Arg0() && HasFrom(was, i, id) && Found(vhost, id).None? then [] else Part(list, v, id)
    decreases |Ingests(was)| - i
  {
    hide Part, Without, Named;
    if i < |Ingests(was)| {
      var gone := Ingests(was)[i].Arg0();
      var now := if vhost.GetWithArg("ingest", gone).Some? then list else Without(list, vhost.Arg0(), Some(gone));
      PartsRemoved(now, vhost, was, i + 1, v, id);
      PartWithout(list, vhost.Arg0(), gone, v, id);
      HasFromStep(was, i, id);
    }
  }

  function Times<T>(n: nat, s: seq<T>): seq<T> {
    if n == 0 then [] else s + Times(n - 1, s)
  }

  lemma {:induction false} TimesSize<T>(n: nat, s: seq<T>)
    ensures |Times(n, s)| == n * |s|
  {
    if n > 0 {
      TimesSize(n - 1, s);
    }
  }

  /** Repeating changes nothing exactly for a single time, or for nothing. */
  lemma TimesIsOneIff<T>(n: nat, s: seq<T>)
    ensures Times(n, s) == s <==> n == 1 || s == []
  {
    TimesSize(n, s);
    if n == 1 {
      assert Times(1, s) == s + Times(0, s) == s;
    } else if s == [] {
      assert |Times(n, s)| == 0;
    } else if n == 0 {
    } else {
      assert n * |s| >= 2 * |s|;
    }
  }

  /** A new id is started as often as directives have it, each time as the one that is found. */
  lemma {:induction false} PartsAdded(env: Env, list: seq<Running>, vhost: Directive, was: Directive, i: nat,
      v: string, id: string)
    requires AllStart(env, vhost)
    ensures var r := AfterAdded(env, list, vhost, was, i);
            r.ok && Part(r.list, v, id)
                 == Part(list, v, id) + if v == vhost.Arg0() && Found(was, id).None?
                                        then Times(CountFrom(vhost, i, id), Want(env, vhost, id)) else []
    decreases |Ingests(vhost)| - i
  {
    hide Start, Part, Named, FindFirst, AllStart, Times, CountFrom, Want;
    var ds := Ingests(vhost);
    CountAtEnd(vhost, i, id, Want(env, vhost, id));
    if i < |ds| {
      var added := ds[i].Arg0();
      FoundIsIt(env, vhost, i);
      var d := Found(vhost, added).value;
      StartAppends(env, list, vhost.Arg0(), d);
      PartStart(env, list, vhost.Arg0(), d, v, id);
      var s := if was.GetWithArg("ingest", added).Some? then Outcome(true, list) else Start(env, list, vhost.Arg0(), d);
      PartsAdded(env, s.list, vhost, was, i + 1, v, id);
      if v == vhost.Arg0() && Found(was, id).None? {
        var own := if id == added then Want(env, vhost, id) else [];
        var more := Times(CountFrom(vhost, i + 1, id), Want(env, vhost, id));
        assert Part(list, v, id) + own + more == Part(list, v, id) + (own + more);
        CountStep(vhost, i, id, Want(env, vhost, id));
        assert Want(env, vhost, added) == Start(env, [], vhost.Arg0(), d).list by { WantOfFound(env, vhost, added); }
      }
    }
  }

  lemma CountAtEnd<T>(vhost: Directive, i: nat, id: string, s: seq<T>)
    ensures i >= |Ingests(vhost)| ==> Times(CountFrom(vhost, i, id), s) == []
  {}

  lemma CountStep<T>(vhost: Directive, i: nat, id: string, s: seq<T>)
    requires i < |Ingests(vhost)|
    ensures Times(CountFrom(vhost, i, id), s)
         == (if Ingests(vhost)[i].Arg0() == id then s else []) + Times(CountFrom(vhost, i + 1, id), s)
  {
    hide Named;
  }

  lemma WantOfFound(env: Env, vhost: Directive, id: string)
    requires Found(vhost, id).Some?
    ensures Want(env, vhost, id) == Start(env, [], vhost.Arg0(), Found(vhost, id).value).list
  {
    hide Start, FindFirst;
  }

  /** The id of a directive is found, and what is found has it and starts. */
  lemma FoundIsIt(env: Env, vhost: Directive, i: nat)
    requires AllStart(env, vhost) && i < |Ingests(vhost)|
    ensures var d := Found(vhost, Ingests(vhost)[i].Arg0());
            d.Some? && d.value.Arg0() == Ingests(vhost)[i].Arg0() && Start(env, [], vhost.Arg0(), d.value).ok
  {
    hide Named, Start;
    FoundIsFirst(vhost, Ingests(vhost)[i].Arg0());
    FoundStarts(env, vhost, Ingests(vhost)[i].Arg0());
  }

  /** Some directive with the id, from the i-th on, is not the one the old configuration has. */
  ghost predicate ChangedFrom(vhost: Directive, was: Directive, i: nat, id: string) {
    Found(was, id).Some?
    && exists j :: i <= j < |Ingests(vhost)| && Ingests(vhost)[j].Arg0() == id
                   && !SameDirective(Ingests(vhost)[j], Found(was, id).value)
  }

  lemma ChangedStep(vhost: Directive, was: Directive, i: nat, id: string)
    requires i < |Ingests(vhost)| && Found(was, id).Some?
    ensures ChangedFrom(vhost, was, i, id)
       <==> || (Ingests(vhost)[i].Arg0() == id && !SameDirective(Ingests(vhost)[i], Found(was, id).value))
            || ChangedFrom(vhost, was, i + 1, id)
  {
    hide Named, SameDirective, FindFirst;
    if ChangedFrom(vhost, was, i, id) {
      var j :| i <= j < |Ingests(vhost)| && Ingests(vhost)[j].Arg0() == id
               && !SameDirective(Ingests(vhost)[j], Found(was, id).value);
      assert j == i || i + 1 <= j;
    }
  }

  /** A changed id runs what the directive that is found starts. */
  lemma {:induction false} PartsUpdated(env: Env, list: seq<Running>, vhost: Directive, was: Directive, i: nat,
      v: string, id: string)
    requires AllStart(env, vhost)
    ensures var r := AfterUpdated(env, list, vhost, was, i);
            r.ok && Part(r.list, v, id)
                 == if v == vhost.Arg0() && ChangedFrom(vhost, was, i, id) then Want(env, vhost, id)
                     else Part(list, v, id)
    decreases |Ingests(vhost)| - i
  {
    hide Start, Part, Named, Without, SameDirective, ChangedFrom, FindFirst, AllStart;
    var ds := Ingests(vhost);
    if i >= |ds| {
      assert !ChangedFrom(vhost, was, i, id) by { NotChangedAtEnd(vhost, was, i, id); }
    } else {
      var added := ds[i].Arg0();
      FoundIsIt(env, vhost, i);
      if Found(was, id).Some? {
        ChangedStep(vhost, was, i, id);
      } else {
        NeverChanged(vhost, was, i, id);
        NeverChanged(vhost, was, i + 1, id);
      }
      var o, d, kept := was.GetWithArg("ingest", added), Found(vhost, added).value,
          Without(list, vhost.Arg0(), Some(added));
      StartAppends(env, kept, vhost.Arg0(), d);
      PartStart(env, kept, vhost.Arg0(), d, v, id);
      PartWithout(list, vhost.Arg0(), added, v, id);
      var s := if o.None? || SameDirective(ds[i], o.value) then Outcome(true, list)
          else Start(env, kept, vhost.Arg0(), d);
      PartsUpdated(env, s.list, vhost, was, i + 1, v, id);
    }
  }

  lemma NotChangedAtEnd(vhost: Directive, was: Directive, i: nat, id: string)
    requires i >= |Ingests(vhost)|
    ensures !ChangedFrom(vhost, was, i, id)
  {}

  lemma NeverChanged(vhost: Directive, was: Directive, i: nat, id: string)
    requires Found(was, id).None?
    ensures !ChangedFrom(vhost, was, i, id)
  {}

  // ---------------------------------------------------------------- when a reload agrees with a fresh start

  /** For each id of the vhost, the list has what a fresh start with this configuration gives. */
  ghost predicate InStep(env: Env, list: seq<Running>, vhost: Directive) {
    forall id :: Part(list, vhost.Arg0(), id) == Part(Fresh(env, vhost).list, vhost.Arg0(), id)
  }

  lemma FreshPart(env: Env, vhost: Directive, v: string, id: string)
    requires Fresh(env, vhost).ok
    ensures Part(Fresh(env, vhost).list, v, id) == if v == vhost.Arg0() then StartsFrom(env, vhost, 0, id) else []
  {
    hide StartAll, Start, Named, StartsFrom, AllStart;
    FreshStartsAll(env, vhost);
    PartsFresh(env, [], vhost, 0, v, id);
  }

  /** What a reload leaves running for an id. */
  ghost function Reloaded(env: Env, vhost: Directive, was: Directive, id: string): seq<Running> {
    if Found(vhost, id).None? then []
    else if Found(was, id).None? then Times(CountFrom(vhost, 0, id), Want(env, vhost, id))
    else if ChangedFrom(vhost, was, 0, id) then Want(env, vhost, id)
    else StartsFrom(env, was, 0, id)
  }

  /** The vhost that is reloaded and its old configuration, both of which start without an error; the
      list is in step with the old one. */
  ghost predicate Reloads(env: Env, list: seq<Running>, vhost: Directive, was: Directive) {
    Fresh(env, vhost).ok && Fresh(env, was).ok && vhost.Arg0() == was.Arg0() && InStep(env, list, was)
  }

  lemma ReloadPart(env: Env, list: seq<Running>, vhost: Directive, was: Directive, v: string, id: string)
    requires Reloads(env, list, vhost, was)
    ensures var r := AfterReload(env, list, vhost, was);
            r.ok && Part(r.list, v, id) == if v == vhost.Arg0() then Reloaded(env, vhost, was, id)
                else Part(list, v, id)
  {
    hide AfterRemoved, AfterAdded, AfterUpdated, Part, Start, Named, SameDirective, StartAll, StartsFrom, CountFrom,
        AllStart, Want;
    hide Times, ChangedFrom, FindFirst;
    FreshStartsAll(env, vhost);
    var removed := AfterRemoved(list, vhost, was, 0);
    var added := AfterAdded(env, removed, vhost, was, 0);
    PartsRemoved(list, vhost, was, 0, v, id);
    PartsAdded(env, removed, vhost, was, 0, v, id);
    PartsUpdated(env, added.list, vhost, was, 0, v, id);
    FreshPart(env, was, v, id);
    FoundIsFirst(vhost, id);
    FoundIsFirst(was, id);
    CountIsZeroIff(env, vhost, 0, id);
    CountIsZeroIff(env, was, 0, id);
    if Found(vhost, id).None? {
      ChangedIsFound(vhost, was, id);
      NoTimes(Want(env, vhost, id));
    } else if Found(was, id).None? {
      NeverChanged(vhost, was, 0, id);
    }
  }

  lemma NoTimes<T>(s: seq<T>)
    ensures Times(0, s) == []
  {}

  lemma ChangedIsFound(vhost: Directive, was: Directive, id: string)
    ensures ChangedFrom(vhost, was, 0, id) ==> HasFrom(vhost, 0, id)
  {
    hide SameDirective, Named;
  }

  /** Directives that share an id are all off, so that each id starts what one directive says. */
  ghost predicate SharedIdsAreOff(vhost: Directive) {
    forall i, j :: 0 <= i < j < |Ingests(vhost)| && Ingests(vhost)[i].Arg0() == Ingests(vhost)[j].Arg0() ==>
      !Enabled(Ingests(vhost)[i]) && !Enabled(Ingests(vhost)[j])
  }

  /** Of directives that share an id all but the first are off. */
  ghost predicate OnlyFirstIsOn(vhost: Directive) {
    forall i, j :: 0 <= i < j < |Ingests(vhost)| && Ingests(vhost)[i].Arg0() == Ingests(vhost)[j].Arg0() ==>
      !Enabled(Ingests(vhost)[j])
  }

  lemma OnlyFirstIsWanted(env: Env, vhost: Directive, id: string)
    requires OnlyFirstIsOn(vhost) && AllStart(env, vhost)
    ensures StartsFrom(env, vhost, 0, id) == Want(env, vhost, id)
  {
    hide Named, Start, StartsFrom, Enabled, AllStart;
    FoundIsFirst(vhost, id);
    if Found(vhost, id).Some? {
      var f :| 0 <= f < |Ingests(vhost)| && IsFirst(vhost, f, id);
      SplitAtFirst(env, vhost, f, id);
      NothingStartsIff(env, vhost, f + 1, id);
    } else {
      CountIsZeroIff(env, vhost, 0, id);
    }
  }

  lemma SharedIdsStartOnce(env: Env, vhost: Directive, id: string)
    requires SharedIdsAreOff(vhost) && AllStart(env, vhost) && Found(vhost, id).Some?
    ensures Times(CountFrom(vhost, 0, id), Want(env, vhost, id)) == Want(env, vhost, id)
  {
    hide Named, Start, StartsFrom, Times, Enabled;
    FoundIsFirst(vhost, id);
    var f :| 0 <= f < |Ingests(vhost)| && IsFirst(vhost, f, id);
    SplitAtFirst(env, vhost, f, id);
    CountIsZeroIff(env, vhost, f + 1, id);
    EnabledStarts(env, vhost.Arg0(), Ingests(vhost)[f]);
    TimesIsOneIff(CountFrom(vhost, 0, id), Want(env, vhost, id));
  }

  lemma UnchangedWant(env: Env, vhost: Directive, was: Directive, id: string)
    requires Found(vhost, id).Some? && Found(was, id).Some? && !ChangedFrom(vhost, was, 0, id)
             && vhost.Arg0() == was.Arg0()
    ensures Want(env, vhost, id) == Want(env, was, id)
  {
    hide Named, Start, SameDirective, FindFirst;
    FoundIsFirst(vhost, id);
    var f :| 0 <= f < |Ingests(vhost)| && IsFirst(vhost, f, id);
    assert SameDirective(Ingests(vhost)[f], Found(was, id).value);
    StartSame(env, [], vhost.Arg0(), Found(vhost, id).value, Found(was, id).value);
  }

  /** The reload succeeds and brings the ingesters in step with the new configuration. */
  ghost predicate Agrees(env: Env, list: seq<Running>, vhost: Directive, was: Directive) {
    var r := AfterReload(env, list, vhost, was);
    r.ok && InStep(env, r.list, vhost)
  }

  lemma AgreesOn(env: Env, list: seq<Running>, vhost: Directive, was: Directive, id: string)
    requires Reloads(env, list, vhost, was) && SharedIdsAreOff(vhost) && OnlyFirstIsOn(was)
    ensures Reloaded(env, vhost, was, id) == Part(Fresh(env, vhost).list, vhost.Arg0(), id)
  {
    hide Named, Part, Start, StartsFrom, Want, CountFrom, Times, AllStart, Fresh, FindFirst, ChangedFrom, InStep;
    FreshStartsAll(env, vhost);
    FreshStartsAll(env, was);
    FreshPart(env, vhost, vhost.Arg0(), id);
    assert OnlyFirstIsOn(vhost);
    OnlyFirstIsWanted(env, vhost, id);
    OnlyFirstIsWanted(env, was, id);
    if Found(vhost, id).None? {
      NothingIsWanted(env, vhost, id);
    } else {
      SharedIdsStartOnce(env, vhost, id);
      if Found(was, id).Some? && !ChangedFrom(vhost, was, 0, id) {
        UnchangedWant(env, vhost, was, id);
      }
    }
  }

  lemma NothingIsWanted(env: Env, vhost: Directive, id: string)
    requires Found(vhost, id).None?
    ensures Want(env, vhost, id) == []
  {}

  /** The reload succeeds, brings the vhost's ingesters in step with the new configuration and
      leaves those of the other vhosts alone. */
  lemma ReloadAgreesWithFreshStart(env: Env, list: seq<Running>, vhost: Directive, was: Directive)
    requires Reloads(env, list, vhost, was) && SharedIdsAreOff(vhost) && OnlyFirstIsOn(was)
    ensures Agrees(env, list, vhost, was)
    ensures forall v, id :: v != vhost.Arg0() ==>
            Part(AfterReload(env, list, vhost, was).list, v, id) == Part(list, v, id)
  {
    hide AfterReload, Part, Fresh, Reloads, Reloaded, SharedIdsAreOff, OnlyFirstIsOn;
    forall v, id
      ensures var r := AfterReload(env, list, vhost, was);
              r.ok && Part(r.list, v, id)
                   == if v == vhost.Arg0() then Part(Fresh(env, vhost).list, v, id) else Part(list, v, id)
    {
      ReloadPart(env, list, vhost, was, v, id);
      AgreesOn(env, list, vhost, was, id);
    }
    ReloadPart(env, list, vhost, was, "", "");
  }

  // ---------------------------------------------------------------- exactly when

  /** A configuration of a vhost with nothing but some ingest directives. */
  function Only(vhost: Directive, ds: seq<Directive>): Directive {
    Directive(vhost.line, vhost.name, [vhost.Arg0()], ds)
  }

  lemma {:induction false} NamedOnly(ds: seq<Directive>, name: string)
    requires forall d :: d in ds ==> d.name == name
    ensures Named(ds, name) == ds
  {
    if ds != [] {
      NamedOnly(ds[1..], name);
    }
  }

  /** One of the directives, alone, starts what it starts among the others. */
  lemma OnlyStarts(env: Env, vhost: Directive, d: Directive)
    requires d.name == "ingest" && Start(env, [], vhost.Arg0(), d).ok
    ensures var one := Only(vhost, [d]);
            && Ingests(one) == [d] && one.Arg0() == vhost.Arg0()
            && Fresh(env, one) == Start(env, [], vhost.Arg0(), d) && Found(one, d.Arg0()) == Some(d)
  {
    hide Start, Named;
    NamedOnly([d], "ingest");
    assert StartAll(env, Start(env, [], vhost.Arg0(), d).list, vhost.Arg0(), [d], 1) == Start(env, [], vhost.Arg0(), d);
  }

  lemma NoneStarts(env: Env, vhost: Directive)
    ensures var none := Only(vhost, []);
            Ingests(none) == [] && Fresh(env, none) == Outcome(true, []) && none.Arg0() == vhost.Arg0()
    ensures forall id :: Found(Only(vhost, []), id).None?
  {}

  /** A directive that is found is one of the vhost's. */
  lemma FoundIsIngest(vhost: Directive, id: string)
    ensures Found(vhost, id).Some? ==> Found(vhost, id).value.name == "ingest" && Found(vhost, id).value.Arg0() == id
  {}

  /** If a directive behind the first one with its id starts something, changing to that configuration
      from one that has just the first misses it. */
  lemma LaterOneIsMissed(env: Env, vhost: Directive, f: nat, j: nat, id: string)
    requires Fresh(env, vhost).ok && f < j < |Ingests(vhost)| && IsFirst(vhost, f, id)
    requires Ingests(vhost)[j].Arg0() == id && Enabled(Ingests(vhost)[j])
    ensures var was := Only(vhost, [Ingests(vhost)[f]]);
            var list := Fresh(env, was).list;
            Reloads(env, list, vhost, was) && OnlyFirstIsOn(was) && !Agrees(env, list, vhost, was)
  {
    hide Named, Part, Start, StartsFrom, Want, CountFrom, Times, AllStart, Fresh, FindFirst, ChangedFrom, Enabled,
        AfterReload;
    var d := Ingests(vhost)[f];
    var was := Only(vhost, [d]);
    FreshStartsAll(env, vhost);
    FoundStarts(env, vhost, id);
    FoundIsIngest(vhost, id);
    OnlyStarts(env, vhost, d);
    var list := Fresh(env, was).list;
    ReloadPart(env, list, vhost, was, vhost.Arg0(), id);
    FreshPart(env, vhost, vhost.Arg0(), id);
    SplitAtFirst(env, vhost, f, id);
    NothingStartsIff(env, vhost, f + 1, id);
    FreshStartsAll(env, was);
    OnlyFirstIsWanted(env, was, id);
    SameWant(env, vhost, was, id);
    assert |Reloaded(env, vhost, was, id)| < |StartsFrom(env, vhost, 0, id)|;
    NotInStep(env, AfterReload(env, list, vhost, was).list, vhost, id);
  }

  lemma SameWant(env: Env, vhost: Directive, was: Directive, id: string)
    requires Found(vhost, id) == Found(was, id) && vhost.Arg0() == was.Arg0()
    ensures Want(env, vhost, id) == Want(env, was, id)
  {}

  lemma NotInStep(env: Env, list: seq<Running>, vhost: Directive, id: string)
    requires Part(list, vhost.Arg0(), id) != Part(Fresh(env, vhost).list, vhost.Arg0(), id)
    ensures !InStep(env, list, vhost)
  {}

  /** If a directive is on and another one shares its id, adding them all at once starts the first one
      for each of them, which is too much unless one of the others is missed anyway. */
  lemma FirstOneIsDoubled(env: Env, vhost: Directive, f: nat, j: nat, id: string)
    requires Fresh(env, vhost).ok && f < j < |Ingests(vhost)| && IsFirst(vhost, f, id) && OnlyFirstIsOn(vhost)
    requires Ingests(vhost)[j].Arg0() == id && Enabled(Ingests(vhost)[f])
    ensures var was := Only(vhost, []);
            Reloads(env, [], vhost, was) && OnlyFirstIsOn(was) && !Agrees(env, [], vhost, was)
  {
    hide Named, Part, Start, StartsFrom, CountFrom, Times, AllStart, Fresh, FindFirst, ChangedFrom, Enabled,
        AfterReload;
    var was := Only(vhost, []);
    FreshStartsAll(env, vhost);
    FoundStarts(env, vhost, id);
    NoneStarts(env, vhost);
    ReloadPart(env, [], vhost, was, vhost.Arg0(), id);
    FreshPart(env, vhost, vhost.Arg0(), id);
    OnlyFirstIsWanted(env, vhost, id);
    SplitAtFirst(env, vhost, f, id);
    CountIsZeroIff(env, vhost, f + 1, id);
    assert HasFrom(vhost, f + 1, id);
    EnabledStarts(env, vhost.Arg0(), Ingests(vhost)[f]);
    TimesIsOneIff(CountFrom(vhost, 0, id), Want(env, vhost, id));
    NotInStep(env, AfterReload(env, [], vhost, was).list, vhost, id);
  }

  /** Which configurations a reload can change to: from every old one that can be left (see below) it
      agrees with a fresh start exactly when directives that share an id are all off. */
  lemma AgreesFromEveryOldIff(env: Env, vhost: Directive)
    requires Fresh(env, vhost).ok
    ensures SharedIdsAreOff(vhost)
       <==> forall list, was :: Reloads(env, list, vhost, was) && OnlyFirstIsOn(was) ==> Agrees(env, list, vhost, was)
  {
    hide Named, Enabled, Fresh, Reloads, Agrees, Start, FindFirst;
    if SharedIdsAreOff(vhost) {
      forall list, was | Reloads(env, list, vhost, was) && OnlyFirstIsOn(was)
        ensures Agrees(env, list, vhost, was)
      {
        ReloadAgreesWithFreshStart(env, list, vhost, was);
      }
    } else {
      var i, j :| 0 <= i < j < |Ingests(vhost)| && Ingests(vhost)[i].Arg0() == Ingests(vhost)[j].Arg0()
                  && (Enabled(Ingests(vhost)[i]) || Enabled(Ingests(vhost)[j]));
      if OnlyFirstIsOn(vhost) {
        var id := Ingests(vhost)[i].Arg0();
        assert HasFrom(vhost, 0, id);
        FoundIsFirst(vhost, id);
        var f :| 0 <= f < |Ingests(vhost)| && IsFirst(vhost, f, id);
        assert f == i;
        FirstOneIsDoubled(env, vhost, f, j, id);
      } else {
        SomeLaterIsMissed(env, vhost);
      }
    }
  }

  lemma SomeLaterIsMissed(env: Env, vhost: Directive)
    requires Fresh(env, vhost).ok && !OnlyFirstIsOn(vhost)
    ensures exists list, was :: Reloads(env, list, vhost, was) && OnlyFirstIsOn(was) && !Agrees(env, list, vhost, was)
  {
    hide Named, Enabled, Fresh, Reloads, Agrees, Start, FindFirst;
    var f, j, id := LaterIsOn(vhost);
    LaterOneIsMissed(env, vhost, f, j, id);
  }

  lemma LaterIsOn(vhost: Directive) returns (f: nat, j: nat, id: string)
    requires !OnlyFirstIsOn(vhost)
    ensures f < j < |Ingests(vhost)| && IsFirst(vhost, f, id) && Ingests(vhost)[j].Arg0() == id
            && Enabled(Ingests(vhost)[j])
  {
    hide Named, Enabled, FindFirst;
    var i: int;
    i, j :| 0 <= i < j < |Ingests(vhost)| && Ingests(vhost)[i].Arg0() == Ingests(vhost)[j].Arg0()
        && Enabled(Ingests(vhost)[j]);
    id := Ingests(vhost)[j].Arg0();
    assert HasFrom(vhost, 0, id);
    FoundIsFirst(vhost, id);
    f :| 0 <= f < |Ingests(vhost)| && IsFirst(vhost, f, id);
    assert f <= i;
  }

  /** Which configurations a reload can leave: for every new one that can be changed to, it agrees with a
      fresh start exactly when no directive is on behind the first one that has its id. */
  lemma AgreesForEveryNewIff(env: Env, was: Directive)
    requires Fresh(env, was).ok
    ensures OnlyFirstIsOn(was)
       <==> forall list, vhost :: Reloads(env, list, vhost, was) && SharedIdsAreOff(vhost) ==>
           Agrees(env, list, vhost, was)
  {
    hide Named, Enabled, Fresh, Reloads, Agrees, Start, FindFirst;
    if OnlyFirstIsOn(was) {
      forall list, vhost | Reloads(env, list, vhost, was) && SharedIdsAreOff(vhost)
        ensures Agrees(env, list, vhost, was)
      {
        ReloadAgreesWithFreshStart(env, list, vhost, was);
      }
    } else {
      var f, j, id := LaterIsOn(was);
      LaterOneIsKept(env, was, f, j, id);
    }
  }

  /** Going back to just the first directive with an id keeps what the others started. */
  lemma LaterOneIsKept(env: Env, was: Directive, f: nat, j: nat, id: string)
    requires Fresh(env, was).ok && f < j < |Ingests(was)| && IsFirst(was, f, id)
    requires Ingests(was)[j].Arg0() == id && Enabled(Ingests(was)[j])
    ensures var vhost, list := Only(was, [Ingests(was)[f]]), Fresh(env, was).list;
            Reloads(env, list, vhost, was) && SharedIdsAreOff(vhost) && !Agrees(env, list, vhost, was)
  {
    hide Named, Part, Start, StartsFrom, Want, CountFrom, Times, AllStart, Fresh, FindFirst, Enabled, AfterReload,
        SameDirective;
    var d := Ingests(was)[f];
    var vhost, list := Only(was, [d]), Fresh(env, was).list;
    FreshStartsAll(env, was);
    FoundStarts(env, was, id);
    FoundIsIngest(was, id);
    OnlyStarts(env, was, d);
    ReloadPart(env, list, vhost, was, was.Arg0(), id);
    FreshPart(env, vhost, was.Arg0(), id);
    FreshStartsAll(env, vhost);
    OnlyFirstIsWanted(env, vhost, id);
    SameWant(env, vhost, was, id);
    SplitAtFirst(env, was, f, id);
    NothingStartsIff(env, was, f + 1, id);
    assert SameDirective(d, d) by { EqualsUpToLines(d, d); }
    assert !ChangedFrom(vhost, was, 0, id);
    NotInStep(env, AfterReload(env, list, vhost, was).list, vhost, id);
  }

  // ---------------------------------------------------------------- whole histories

  lemma {:induction false} CountInPart(list: seq<Running>, r: Running)
    ensures multiset(list)[r] == multiset(Part(list, r.vhost, r.id))[r]
  {
    if list != [] {
      assert list == [list[0]] + list[1..];
      CountInPart(list[1..], r);
    }
  }

  /** Being in step means having the same ingesters, counted, when nothing else is in the list. */
  lemma InStepSameIngesters(env: Env, list: seq<Running>, vhost: Directive)
    requires Fresh(env, vhost).ok && InStep(env, list, vhost) && forall r :: r in list ==> r.vhost == vhost.Arg0()
    ensures multiset(list) == multiset(Fresh(env, vhost).list)
  {
    hide Fresh, Part;
    var started := Fresh(env, vhost).list;
    forall r: Running
      ensures multiset(list)[r] == multiset(started)[r]
    {
      CountInPart(list, r);
      CountInPart(started, r);
      if r.vhost != vhost.Arg0() {
        assert r !in list;
        FreshPart(env, vhost, r.vhost, r.id);
      }
    }
  }

  /** What should run of a vhost, which need not be there or be on. */
  ghost predicate Follows(env: Env, list: seq<Running>, name: string, conf: Option<Directive>) {
    if VhostEnabled(conf) then InStep(env, list, conf.value) else forall id :: Part(list, name, id) == []
  }

  /** A configuration of the vhost that can be reloaded from and to: all that is on starts, under ids
      of its own. */
  ghost predicate Startable(env: Env, name: string, conf: Option<Directive>) {
    VhostEnabled(conf) ==> conf.value.Arg0() == name && Fresh(env, conf.value).ok && SharedIdsAreOff(conf.value)
  }

  predicate KeepsMode(now: Option<Directive>, was: Option<Directive>) {
    VhostEnabled(now) == VhostEnabled(was) ==> IsEdge(now) == IsEdge(was)
  }

  lemma {:induction false} PartWithoutVhost(list: seq<Running>, gone: string, v: string, id: string)
    ensures Part(Without(list, gone, None), v, id) == if v == gone then [] else Part(list, v, id)
  {
    if list != [] {
      PartWithoutVhost(list[1..], gone, v, id);
      PartConcat(if Is(list[0], gone, None) then [] else [list[0]], Without(list[1..], gone, None), v, id);
    }
  }

  ghost predicate OfVhost(list: seq<Running>, vhost: string) {
    forall r :: r in list ==> r.vhost == vhost
  }

  lemma {:induction false} StartAllAppends(env: Env, list: seq<Running>, vhost: string, ds: seq<Directive>, i: nat)
    ensures var all, own := StartAll(env, list, vhost, ds, i), StartAll(env, [], vhost, ds, i);
            all.ok == own.ok && all.list == list + own.list && OfVhost(own.list, vhost)
    decreases |ds| - i
  {
    hide Start;
    if i < |ds| {
      var own := Start(env, [], vhost, ds[i]);
      StartAppends(env, list, vhost, ds[i]);
      StartAllAppends(env, list + own.list, vhost, ds, i + 1);
      StartAllAppends(env, own.list, vhost, ds, i + 1);
      var more := StartAll(env, [], vhost, ds, i + 1).list;
      assert list + own.list + more == list + (own.list + more);
    }
  }

  lemma {:induction false} PartOfOther(list: seq<Running>, vhost: string, v: string, id: string)
    requires OfVhost(list, vhost) && v != vhost
    ensures Part(list, v, id) == []
  {
    if list != [] {
      assert list[0] in list && forall r :: r in list[1..] ==> r in list;
      PartOfOther(list[1..], vhost, v, id);
    }
  }

  lemma PartOfNone()
    ensures forall v, id :: Part([], v, id) == []
  {}

  /** Switching a vhost on starts it behind what runs, whatever that is. */
  lemma SwitchingOn(env: Env, list: seq<Running>, vhost: Directive, v: string, id: string)
    ensures var r := StartVhost(env, list, vhost);
            && r.ok == Fresh(env, vhost).ok
            && Part(r.list, v, id)
               == Part(list, v, id) + if v == vhost.Arg0() then Part(Fresh(env, vhost).list, v, id) else []
  {
    hide StartAll, Part;
    StartAllAppends(env, list, vhost.Arg0(), Ingests(vhost), 0);
    PartConcat(list, Fresh(env, vhost).list, v, id);
    if v != vhost.Arg0() {
      PartOfOther(Fresh(env, vhost).list, vhost.Arg0(), v, id);
    }
  }

  /** One reload of a vhost, which may be switched on or off, or appear or disappear. */
  lemma VhostReloadAgrees(env: Env, list: seq<Running>, name: string, now: Option<Directive>, was: Option<Directive>)
    requires Startable(env, name, now) && Startable(env, name, was) && KeepsMode(now, was)
             && Follows(env, list, name, was)
    ensures var r := AfterReloadVhost(env, list, name, now, was);
            r.ok && Follows(env, r.list, name, now) && forall v, id :: v != name ==>
                Part(r.list, v, id) == Part(list, v, id)
  {
    hide AfterReload, Part, Fresh, StartVhost, Setting, IsEdge, Without;
    var r := AfterReloadVhost(env, list, name, now, was);
    if VhostEnabled(now) && VhostEnabled(was) {
      assert OnlyFirstIsOn(was.value);
      ReloadAgreesWithFreshStart(env, list, now.value, was.value);
    } else if VhostEnabled(now) {
      forall v, id
        ensures r.ok && Part(r.list, v, id)
                     == if v == name then Part(Fresh(env, now.value).list, v, id) else Part(list, v, id)
      {
        SwitchingOn(env, list, now.value, v, id);
      }
      SwitchingOn(env, list, now.value, "", "");
    } else if VhostEnabled(was) {
      forall v, id
        ensures Part(r.list, v, id) == if v == name then [] else Part(list, v, id)
      {
        PartWithoutVhost(list, name, v, id);
      }
    }
  }

  /** Reloading through a whole history of configurations. */
  function History(env: Env, list: seq<Running>, name: string, history: seq<Option<Directive>>): Outcome
    requires history != []
    decreases |history|
  {
    if |history| == 1 then Outcome(true, list)
    else
      var r := AfterReloadVhost(env, list, name, history[1], history[0]);
      if r.ok then History(env, r.list, name, history[1..]) else r
  }

  ghost predicate AllStartable(env: Env, name: string, history: seq<Option<Directive>>) {
    && (forall i :: 0 <= i < |history| ==> Startable(env, name, history[i]))
    && (forall i :: 0 < i < |history| ==> KeepsMode(history[i], history[i - 1]))
  }

  /** After any number of reloads, which may switch the vhost off and on, the server runs what it would
      run had it just been started. */
  lemma {:induction false} AnyHistoryAgrees(env: Env, list: seq<Running>, name: string, history: seq<Option<Directive>>)
    requires history != [] && Follows(env, list, name, history[0]) && AllStartable(env, name, history)
    ensures var r := History(env, list, name, history);
            r.ok && Follows(env, r.list, name, history[|history| - 1])
    decreases |history|
  {
    hide AfterReloadVhost, Follows, Startable, KeepsMode;
    if |history| > 1 {
      VhostReloadAgrees(env, list, name, history[1], history[0]);
      var r := AfterReloadVhost(env, list, name, history[1], history[0]);
      var rest := history[1..];
      assert AllStartable(env, name, rest) by {
        assert forall i :: 0 <= i < |rest| ==> rest[i] == history[i + 1];
      }
      AnyHistoryAgrees(env, r.list, name, rest);
    }
  }

  // ---------------------------------------------------------------- whole configurations

  function VhostOf(root: Directive, name: string): Option<Directive> {
    root.GetWithArg("vhost", name)
  }

  /** Of every vhost that runs which a fresh start would have running, and nothing of what is off. */
  ghost predicate FollowsAll(env: Env, list: seq<Running>, root: Directive) {
    forall name :: Follows(env, list, name, VhostOf(root, name))
  }

  ghost predicate UniqueNames(root: Directive) {
    forall i, j :: 0 <= i < j < |Vhosts(root)| ==> Vhosts(root)[i].Arg0() != Vhosts(root)[j].Arg0()
  }

  /** All vhosts of both can be reloaded, and those that stay on keep their mode. */
  ghost predicate CanReload(env: Env, root: Directive, oldRoot: Directive) {
    && UniqueNames(root) && UniqueNames(oldRoot)
    && forall name ::
         && Startable(env, name, VhostOf(root, name)) && Startable(env, name, VhostOf(oldRoot, name))
         && KeepsMode(VhostOf(root, name), VhostOf(oldRoot, name))
  }

  ghost predicate Distinct(names: seq<string>) {
    forall i, j :: 0 <= i < j < |names| ==> names[i] != names[j]
  }

  lemma {:induction false} NamesAre(vhosts: seq<Directive>, other: Option<Directive>, i: nat)
    requires forall j, k :: 0 <= j < k < |vhosts| ==> vhosts[j].Arg0() != vhosts[k].Arg0()
    ensures var names := NamesFrom(vhosts, other, i);
            && Distinct(names)
            && forall name :: name in names <==>
                 && (exists j :: i <= j < |vhosts| && vhosts[j].Arg0() == name)
                 && (other.Some? ==> VhostOf(other.value, name).None?)
    decreases |vhosts| - i
  {
    hide FindFirst;
    if i < |vhosts| {
      NamesAre(vhosts, other, i + 1);
      var name := vhosts[i].Arg0();
      var rest := NamesFrom(vhosts, other, i + 1);
      if other.Some? && VhostOf(other.value, name).Some? {
        assert [] + rest == rest;
      } else {
        assert name !in rest;
      }
    }
  }

  /** A vhost is found exactly when one has the name. */
  lemma VhostIff(root: Directive, name: string)
    ensures VhostOf(root, name).Some? <==> exists j :: 0 <= j < |Vhosts(root)| && Vhosts(root)[j].Arg0() == name
  {
    hide Named;
    FoundIsNamed(root.directives, "vhost", name);
    if VhostOf(root, name).Some? {
      var j :| 0 <= j < |Vhosts(root)| && Vhosts(root)[j] == VhostOf(root, name).value;
      assert Vhosts(root)[j].Arg0() == name;
    }
    forall j | 0 <= j < |Vhosts(root)| && Vhosts(root)[j].Arg0() == name
      ensures VhostOf(root, name).Some?
    {
      NamedFound(root.directives, Vhosts(root)[j], "vhost");
    }
  }

  /** A reload looks at each vhost that one of the configurations has once. */
  lemma NamesAreAll(root: Directive, oldRoot: Directive)
    requires UniqueNames(root) && UniqueNames(oldRoot)
    ensures var names := VhostNames(root, oldRoot);
            Distinct(names) && forall name :: name !in names ==>
                VhostOf(root, name).None? && VhostOf(oldRoot, name).None?
  {
    hide Named, NamesFrom, FindFirst;
    NamesAre(Vhosts(root), None, 0);
    NamesAre(Vhosts(oldRoot), Some(root), 0);
    forall name
      ensures VhostOf(root, name).Some? <==> exists j :: 0 <= j < |Vhosts(root)| && Vhosts(root)[j].Arg0() == name
      ensures VhostOf(oldRoot, name).Some? <==> exists j ::
              && 0 <= j < |Vhosts(oldRoot)|
              && Vhosts(oldRoot)[j].Arg0() == name
    {
      VhostIff(root, name);
      VhostIff(oldRoot, name);
    }
    var a, b := NamesFrom(Vhosts(root), None, 0), NamesFrom(Vhosts(oldRoot), Some(root), 0);
    assert forall i :: 0 <= i < |a| ==> a[i] in a;
    assert forall i :: 0 <= i < |b| ==> b[i] in b;
    assert forall name :: name in a ==> name !in b;
  }

  lemma FollowsOther(env: Env, a: seq<Running>, b: seq<Running>, name: string, conf: Option<Directive>)
    requires Follows(env, a, name, conf) && Startable(env, name, conf)
    requires forall id :: Part(b, name, id) == Part(a, name, id)
    ensures Follows(env, b, name, conf)
  {
    hide Part, Fresh, VhostEnabled;
  }

  /** The configuration that a vhost follows while those from the i-th name on are still to be reloaded. */
  function Current(root: Directive, oldRoot: Directive, names: seq<string>, i: nat, name: string): Option<Directive>
    requires i <= |names|
  {
    VhostOf(if name in names[i..] then oldRoot else root, name)
  }

  ghost predicate FollowsCurrent(env: Env, list: seq<Running>, root: Directive, oldRoot: Directive, names: seq<string>,
      i: nat)
    requires i <= |names|
  {
    forall name :: Follows(env, list, name, Current(root, oldRoot, names, i, name))
  }

  lemma CurrentStep(root: Directive, oldRoot: Directive, names: seq<string>, i: nat, name: string)
    requires Distinct(names) && i < |names|
    ensures name == names[i] ==> && Current(root, oldRoot, names, i, name) == VhostOf(oldRoot, name)
                                 && Current(root, oldRoot, names, i + 1, name) == VhostOf(root, name)
    ensures name != names[i] ==> Current(root, oldRoot, names, i, name) == Current(root, oldRoot, names, i + 1, name)
    ensures Current(root, oldRoot, names, i, name) == VhostOf(root, name)
            || Current(root, oldRoot, names, i, name) == VhostOf(oldRoot, name)
  {
    hide VhostOf;
    assert names[i..] == [names[i]] + names[i + 1..];
  }

  lemma OneVhostReloaded(env: Env, list: seq<Running>, root: Directive, oldRoot: Directive, names: seq<string>, i: nat)
    requires CanReload(env, root, oldRoot) && Distinct(names) && i < |names|
    requires FollowsCurrent(env, list, root, oldRoot, names, i)
    ensures var r := AfterReloadVhost(env, list, names[i], VhostOf(root, names[i]), VhostOf(oldRoot, names[i]));
            r.ok && FollowsCurrent(env, r.list, root, oldRoot, names, i + 1)
  {
    hide AfterReloadVhost, Follows, Startable, KeepsMode, Part, UniqueNames, VhostOf, Current, Distinct;
    var now, was := VhostOf(root, names[i]), VhostOf(oldRoot, names[i]);
    CurrentStep(root, oldRoot, names, i, names[i]);
    assert Follows(env, list, names[i], Current(root, oldRoot, names, i, names[i]));
    VhostReloadAgrees(env, list, names[i], now, was);
    var r := AfterReloadVhost(env, list, names[i], now, was);
    var next := i + 1;
    forall name
      ensures Follows(env, r.list, name, Current(root, oldRoot, names, next, name))
    {
      CurrentStep(root, oldRoot, names, i, name);
      if name != names[i] {
        assert Follows(env, list, name, Current(root, oldRoot, names, i, name));
        FollowsOther(env, list, r.list, name, Current(root, oldRoot, names, i, name));
      }
    }
  }

  lemma {:induction false} VhostsReloaded(env: Env, list: seq<Running>, root: Directive, oldRoot: Directive,
      names: seq<string>, i: nat)
    requires CanReload(env, root, oldRoot) && Distinct(names) && i <= |names|
    requires FollowsCurrent(env, list, root, oldRoot, names, i)
    ensures var r := AfterReloadVhosts(env, list, root, oldRoot, names, i);
            r.ok && FollowsCurrent(env, r.list, root, oldRoot, names, |names|)
    decreases |names| - i
  {
    hide AfterReloadVhost, FollowsCurrent, CanReload, Distinct, VhostOf;
    if i < |names| {
      OneVhostReloaded(env, list, root, oldRoot, names, i);
      var r := AfterReloadVhost(env, list, names[i], VhostOf(root, names[i]), VhostOf(oldRoot, names[i]));
      VhostsReloaded(env, r.list, root, oldRoot, names, i + 1);
      ReloadedStep(env, list, root, oldRoot, names, i);
    }
  }

  lemma ReloadedStep(env: Env, list: seq<Running>, root: Directive, oldRoot: Directive, names: seq<string>, i: nat)
    requires i < |names|
    ensures var r := AfterReloadVhost(env, list, names[i], VhostOf(root, names[i]), VhostOf(oldRoot, names[i]));
            r.ok ==>
                AfterReloadVhosts(env, list, root, oldRoot, names, i)
                == AfterReloadVhosts(env, r.list, root, oldRoot, names, i + 1)
  {
    hide AfterReloadVhost;
  }

  /** A reload of the whole configuration leaves running, of every vhost, what the new one says. */
  lemma ReloadFollows(env: Env, list: seq<Running>, root: Directive, oldRoot: Directive)
    requires CanReload(env, root, oldRoot) && FollowsAll(env, list, oldRoot)
    ensures var r := AfterReloadVhosts(env, list, root, oldRoot, VhostNames(root, oldRoot), 0);
            r.ok && FollowsAll(env, r.list, root)
  {
    hide AfterReloadVhosts, Follows, VhostNames, Startable, KeepsMode, UniqueNames, VhostOf;
    NamesAreAll(root, oldRoot);
    var names := VhostNames(root, oldRoot);
    forall name
      ensures Follows(env, list, name, Current(root, oldRoot, names, 0, name))
    {
      assert names[0..] == names;
      assert Follows(env, list, name, VhostOf(oldRoot, name));
    }
    VhostsReloaded(env, list, root, oldRoot, names, 0);
    var r := AfterReloadVhosts(env, list, root, oldRoot, names, 0);
    forall name
      ensures Follows(env, r.list, name, VhostOf(root, name))
    {
      assert names[|names|..] == [];
      assert Follows(env, r.list, name, Current(root, oldRoot, names, |names|, name));
    }
  }

  // ---------------------------------------------------------------- the start of the server

  /** How many vhosts from the i-th on have this name. */
  function NamesakesFrom(root: Directive, i: nat, name: string): nat
    decreases |Vhosts(root)| - i
  {
    if i >= |Vhosts(root)| then 0
    else (if Vhosts(root)[i].Arg0() == name then 1 else 0) + NamesakesFrom(root, i + 1, name)
  }

  /** The vhost that is found under a name. */
  lemma VhostIsFound(root: Directive, i: nat)
    requires i < |Vhosts(root)|
    ensures var name := Vhosts(root)[i].Arg0();
            GetVhost(root, name) == root.GetWithArg("vhost", name) && GetVhost(root, name).Some?
            && GetVhost(root, name).value.Arg0() == name
  {
    NamedFound(root.directives, Vhosts(root)[i], "vhost");
  }

  lemma {:induction false} StartedParts(env: Env, list: seq<Running>, root: Directive, i: nat, name: string, id: string)
    requires StartConf(env, list, root, i).ok
    ensures var conf := root.GetWithArg("vhost", name);
            Part(StartConf(env, list, root, i).list, name, id)
            == Part(list, name, id)
               + Times(NamesakesFrom(root, i, name),
                   if conf.None? then [] else Part(Fresh(env, conf.value).list, name, id))
    decreases |Vhosts(root)| - i
  {
    hide StartAll, Part, Named, GetVhost, FindFirst;
    if i < |Vhosts(root)| {
      var v := Vhosts(root)[i].Arg0();
      VhostIsFound(root, i);
      var conf := GetVhost(root, v).value;
      SwitchingOn(env, list, conf, name, id);
      StartedParts(env, StartVhost(env, list, conf).list, root, i + 1, name, id);
      var found := root.GetWithArg("vhost", name);
      var own := if found.None? then [] else Part(Fresh(env, found.value).list, name, id);
      var more := Times(NamesakesFrom(root, i + 1, name), own);
      if name == v {
        assert Part(list, name, id) + own + more == Part(list, name, id) + (own + more);
      } else {
        assert Part(list, name, id) + [] + more == Part(list, name, id) + more;
      }
    }
  }

  /** A server that starts without an error is in step with a vhost, on or off, exactly when no other
      vhost has its name, or it starts nothing. */
  lemma StartIsInStepIff(env: Env, root: Directive, name: string)
    requires root.GetWithArg("vhost", name).Some? && StartConf(env, [], root, 0).ok
    ensures var vhost := root.GetWithArg("vhost", name).value;
            InStep(env, StartConf(env, [], root, 0).list, vhost)
            <==> NamesakesFrom(root, 0, name) == 1 || Fresh(env, vhost).list == []
  {
    hide StartAll, Part, Named, StartConf, FindFirst, Times, Fresh, NamesakesFrom;
    var vhost, started := root.GetWithArg("vhost", name).value, StartConf(env, [], root, 0).list;
    var n := NamesakesFrom(root, 0, name);
    PartOfNone();
    assert vhost.Arg0() == name by { VhostHasName(root, name); }
    forall id
      ensures Part(started, name, id) == Part(Fresh(env, vhost).list, name, id)
         <==> n == 1 || Part(Fresh(env, vhost).list, name, id) == []
    {
      StartedParts(env, [], root, 0, name, id);
      TimesIsOneIff(n, Part(Fresh(env, vhost).list, name, id));
    }
    NothingRunsIff(env, vhost);
  }

  lemma VhostHasName(root: Directive, name: string)
    ensures var v := root.GetWithArg("vhost", name); v.Some? ==> v.value.Arg0() == name
  {}

  lemma NothingRunsIff(env: Env, vhost: Directive)
    ensures Fresh(env, vhost).list == [] <==> forall id :: Part(Fresh(env, vhost).list, vhost.Arg0(), id) == []
  {
    hide StartAll, Part, Named;
    PartOfNone();
    var list := Fresh(env, vhost).list;
    if list != [] {
      StartAllAppends(env, [], vhost.Arg0(), Ingests(vhost), 0);
      var r := list[0];
      PartHolds(list, 0);
      assert r.vhost == vhost.Arg0();
      assert Part(list, vhost.Arg0(), r.id) != [];
    }
  }

  lemma {:induction false} PartHolds(list: seq<Running>, i: nat)
    requires i < |list|
    ensures Part(list, list[i].vhost, list[i].id) != []
  {
    if i > 0 {
      PartHolds(list[1..], i - 1);
    }
  }

  lemma {:induction false} NoNamesakes(root: Directive, i: nat, name: string)
    requires UniqueNames(root)
    ensures NamesakesFrom(root, i, name)
         == if exists j :: i <= j < |Vhosts(root)| && Vhosts(root)[j].Arg0() == name then 1 else 0
    decreases |Vhosts(root)| - i
  {
    hide Named;
    if i < |Vhosts(root)| {
      NoNamesakes(root, i + 1, name);
      if j :| i <= j < |Vhosts(root)| && Vhosts(root)[j].Arg0() == name {
        assert j == i || i + 1 <= j;
      }
    }
  }

  /** What runs of each vhost once the server has started: what its directives start, on or off. */
  lemma StartedPart(env: Env, root: Directive, name: string, id: string)
    requires UniqueNames(root) && StartConf(env, [], root, 0).ok
    ensures var conf := VhostOf(root, name);
            Part(StartConf(env, [], root, 0).list, name, id)
            == if conf.None? then [] else Part(Fresh(env, conf.value).list, name, id)
  {
    hide StartAll, Part, Named, StartConf, FindFirst, Fresh, NamesakesFrom, UniqueNames;
    PartOfNone();
    StartedParts(env, [], root, 0, name, id);
    NoNamesakes(root, 0, name);
    VhostIff(root, name);
    var conf := VhostOf(root, name);
    if conf.Some? {
      TimesIsOneIff(1, Part(Fresh(env, conf.value).list, name, id));
    } else {
      NoTimes(Part([], name, id));
    }
  }

  /** A server that starts on vhosts with names of their own runs of every vhost what the configuration says
      exactly when those that are off have nothing to start. */
  lemma StartFollowsIff(env: Env, root: Directive)
    requires UniqueNames(root) && StartConf(env, [], root, 0).ok
    ensures FollowsAll(env, StartConf(env, [], root, 0).list, root)
       <==> forall name :: VhostOf(root, name).Some? && !VhostEnabled(VhostOf(root, name)) ==>
              Fresh(env, VhostOf(root, name).value).list == []
  {
    hide StartAll, Part, Named, StartConf, FindFirst, Fresh, UniqueNames, VhostEnabled;
    var list := StartConf(env, [], root, 0).list;
    forall name
      ensures Follows(env, list, name, VhostOf(root, name))
         <==> (VhostOf(root, name).Some? && !VhostEnabled(VhostOf(root, name)) ==>
                 Fresh(env, VhostOf(root, name).value).list == [])
    {
      StartFollows(env, root, name);
    }
  }

  lemma StartFollows(env: Env, root: Directive, name: string)
    requires UniqueNames(root) && StartConf(env, [], root, 0).ok
    ensures var conf := VhostOf(root, name);
            Follows(env, StartConf(env, [], root, 0).list, name, conf)
            <==> (conf.Some? && !VhostEnabled(conf) ==> Fresh(env, conf.value).list == [])
  {
    hide StartAll, Part, Named, StartConf, FindFirst, Fresh, UniqueNames, Setting;
    var conf, list := VhostOf(root, name), StartConf(env, [], root, 0).list;
    VhostHasName(root, name);
    forall id
      ensures Part(list, name, id) == if conf.None? then [] else Part(Fresh(env, conf.value).list, name, id)
    {
      StartedPart(env, root, name, id);
    }
    if conf.Some? {
      NothingRunsIff(env, conf.value);
      var own := Fresh(env, conf.value).list;
      assert conf.value.Arg0() == name;
      if VhostEnabled(conf) {
        assert InStep(env, list, conf.value);
      } else if own == [] {
        forall id
          ensures Part(list, name, id) == []
        {
          assert Part(list, name, id) == Part(own, name, id);
        }
      } else {
        var id :| Part(own, name, id) != [];
        assert Part(list, name, id) != [];
      }
    }
  }

  /** The ingesters after the server started on the first configuration and was reloaded to the others. */
  function Lifetime(env: Env, roots: seq<Directive>): Outcome
    requires roots != []
    decreases |roots|
  {
    var n := |roots| - 1;
    if n == 0 then StartConf(env, [], roots[0], 0)
    else
      var before := Lifetime(env, roots[..n]);
      if before.ok then
        AfterReloadVhosts(env, before.list, roots[n], roots[n - 1], VhostNames(roots[n], roots[n - 1]), 0)
      else before
  }

  /** From the start of the server through any number of reloads it runs, of every vhost, what the last
      configuration says. */
  lemma {:induction false} LifetimeFollows(env: Env, roots: seq<Directive>)
    requires roots != [] && UniqueNames(roots[0]) && StartConf(env, [], roots[0], 0).ok
    requires FollowsAll(env, StartConf(env, [], roots[0], 0).list, roots[0])
    requires forall i :: 0 < i < |roots| ==> CanReload(env, roots[i], roots[i - 1])
    ensures var r := Lifetime(env, roots); r.ok && FollowsAll(env, r.list, roots[|roots| - 1])
    decreases |roots|
  {
    hide StartConf, AfterReloadVhosts, FollowsAll, CanReload, VhostNames, UniqueNames;
    var n := |roots| - 1;
    if n > 0 {
      var front := roots[..n];
      assert front[0] == roots[0] && forall i :: 0 <= i < n ==> front[i] == roots[i];
      LifetimeFollows(env, front);
      ReloadFollows(env, Lifetime(env, front).list, roots[n], roots[n - 1]);
    }
  }

  /** A vhost that is off when the server starts is started nevertheless. Switching it on then starts the
      new configuration besides: the two agree exactly when the old one had nothing turned on. */
  lemma EnablingAgreesIff(env: Env, list: seq<Running>, vhost: Directive, was: Directive)
    requires !VhostEnabled(Some(was)) && VhostEnabled(Some(vhost)) && vhost.Arg0() == was.Arg0()
             && InStep(env, list, was)
    ensures InStep(env, AfterReloadVhost(env, list, vhost.Arg0(), Some(vhost), Some(was)).list, vhost)
       <==> Fresh(env, was).list == []
    ensures Fresh(env, was).ok ==> (Fresh(env, was).list == [] <==> forall d :: d in Ingests(was) ==> !Enabled(d))
  {
    hide StartAll, Part, Named, Fresh, StartVhost, VhostEnabled, Enabled;
    var name, r := vhost.Arg0(), AfterReloadVhost(env, list, vhost.Arg0(), Some(vhost), Some(was));
    NothingRunsIff(env, was);
    forall id
      ensures Part(r.list, name, id) == Part(Fresh(env, was).list, name, id) + Part(Fresh(env, vhost).list, name, id)
    {
      SwitchingOn(env, list, vhost, name, id);
    }
    if InStep(env, r.list, vhost) {
      forall id
        ensures Part(Fresh(env, was).list, name, id) == []
      {
        assert Part(r.list, name, id) == Part(Fresh(env, vhost).list, name, id);
      }
    }
    if Fresh(env, was).list == [] {
      forall id
        ensures Part(r.list, name, id) == Part(Fresh(env, vhost).list, name, id)
      {
        assert Part(Fresh(env, was).list, name, id) == [];
      }
    }
    if Fresh(env, was).ok {
      OffIffNothingRuns(env, was);
    }
  }

  lemma OffIffNothingRuns(env: Env, was: Directive)
    requires Fresh(env, was).ok
    ensures Fresh(env, was).list == [] <==> forall d :: d in Ingests(was) ==> !Enabled(d)
  {
    hide Part, Named, Fresh, Enabled, StartsFrom, AllStart;
    NothingRunsIff(env, was);
    FreshStartsAll(env, was);
    forall id
      ensures Part(Fresh(env, was).list, was.Arg0(), id) == StartsFrom(env, was, 0, id)
    {
      FreshPart(env, was, was.Arg0(), id);
    }
    if Fresh(env, was).list == [] {
      forall d | d in Ingests(was)
        ensures !Enabled(d)
      {
        var j :| 0 <= j < |Ingests(was)| && Ingests(was)[j] == d;
        NothingStartsIff(env, was, 0, d.Arg0());
        assert Part(Fresh(env, was).list, was.Arg0(), d.Arg0()) == [];
      }
    } else {
      var id :| Part(Fresh(env, was).list, was.Arg0(), id) != [];
      NothingStartsIff(env, was, 0, id);
    }
  }

  /** Switching a vhost off and on again agrees with a fresh start of what it is switched on with. */
  lemma OffAndOnAgrees(env: Env, list: seq<Running>, name: string, on: Directive, off: Option<Directive>,
      again: Directive)
    requires VhostEnabled(Some(on)) && !VhostEnabled(off) && VhostEnabled(Some(again)) && again.Arg0() == name
    ensures var left := AfterReloadVhost(env, list, name, off, Some(on)).list;
            var r := AfterReloadVhost(env, left, name, Some(again), off);
            && r.ok == Fresh(env, again).ok && InStep(env, r.list, again)
            && forall v, id :: v != name ==> Part(r.list, v, id) == Part(list, v, id)
  {
    hide Part, Fresh, StartVhost, VhostEnabled, Without;
    var left := AfterReloadVhost(env, list, name, off, Some(on)).list;
    var r := AfterReloadVhost(env, left, name, Some(again), off);
    SwitchingOn(env, left, again, "", "");
    forall v, id
      ensures Part(r.list, v, id) == if v == name then Part(Fresh(env, again).list, v, id) else Part(list, v, id)
    {
      PartWithoutVhost(list, name, v, id);
      SwitchingOn(env, left, again, v, id);
    }
  }

  /** An enabled ingest without an engine never starts: there is no output to write to. */
  lemma NoEngineNeverStarts(env: Env, list: seq<Running>, vhost: string, ingest: Directive)
    requires env.Valid() && Enabled(ingest) && Engines(ingest) == []
    ensures Start(env, list, vhost, ingest) == Outcome(false, list)
  {}
}
