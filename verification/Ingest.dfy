/**
 The running ingesters, and the incremental reload that keeps them in step with the
 configuration.
 */
module Ingest {
  import opened ConfParser
  import opened Pieces

  const DEFAULT_VHOST := "__defaultVhost__"

  /** What starting an ingester reads besides the ingest directive: the listen port, the text
      replacement routine, the log file naming, and whether ffmpeg takes an engine's options. */
  datatype Env = Env(port: string, replace: (string, string, string) -> string,
                     logFile: (string, string) -> string, accepts: Directive -> bool)
  {
    ghost predicate Valid() {
      forall a, b :: replace("", a, b) == ""
    }
  }

  /** An initialised ffmpeg; without `transcode` it copies. */
  datatype FFmpeg = FFmpeg(bin: string, realtime: bool, input: string, output: string, log: string,
      transcode: Option<Directive>)

  datatype Running = Running(ffmpeg: FFmpeg, vhost: string, id: string)

  // ---------------------------------------------------------------- configuration getters

  function Named(ds: seq<Directive>, name: string): seq<Directive> {
    if ds == [] then []
    else (if ds[0].name == name then [ds[0]] else []) + Named(ds[1..], name)
  }

  function Ingests(vhost: Directive): seq<Directive> {
    Named(vhost.directives, "ingest")
  }

  function Engines(ingest: Directive): seq<Directive> {
    Named(ingest.directives, "engine")
  }

  /** The first argument of a child directive, or the default when there is no such child. */
  function Setting(d: Directive, name: string, default: string): string {
    match d.Get(name) case None => default case Some(c) => c.Arg0()
  }

  predicate Enabled(d: Directive) {
    Setting(d, "enabled", "off") == "on"
  }

  function InputSetting(ingest: Directive, name: string, default: string): string {
    match ingest.Get("input") case None => default case Some(input) => Setting(input, name, default)
  }

  function EngineSetting(engine: Option<Directive>, name: string): string {
    match engine case None => "" case Some(e) => Setting(e, name, "")
  }

  function GetVhost(root: Directive, name: string): Option<Directive> {
    var v := root.GetWithArg("vhost", name);
    if v.Some? || name == DEFAULT_VHOST then v else root.GetWithArg("vhost", DEFAULT_VHOST)
  }

  predicate VhostEnabled(vhost: Option<Directive>) {
    vhost.Some? && Setting(vhost.value, "enabled", "on") != "off"
  }

  /** An edge vhost takes its stream from an origin server. */
  predicate IsEdge(vhost: Option<Directive>) {
    vhost.Some? && Setting(vhost.value, "mode", "") == "remote"
  }

  // ---------------------------------------------------------------- starting one ingest directive

  /** Initialises ffmpeg for one engine of an ingest directive; None is an error. */
  function Initialize(env: Env, bin: string, vhost: string, ingest: Directive,
      engine: Option<Directive>): Option<FFmpeg> {
    var output := env.replace(env.replace(EngineSetting(engine, "output"), "[vhost]", vhost), "[port]", env.port);
    var kind := InputSetting(ingest, "type", "file");
    var url := InputSetting(ingest, "url", "");
    var known := kind == "file" || kind == "stream";
    if output == "" || kind == "" || (known && url == "") then None
    else
      // an unknown input type leaves ffmpeg without its output, which it then refuses
      var taken := if known then output else "";
      var copies := engine.None? || EngineSetting(engine, "vcodec") == "" || EngineSetting(engine, "acodec") == ""
                    || !Enabled(engine.value);
      if taken == "" || (!copies && !env.accepts(Unnumbered(engine.value))) then None
      else Some(FFmpeg(bin, kind == "file", url, output, env.logFile(vhost, output),
                       if copies then None else Some(Unnumbered(engine.value))))
  }

  /** Whether all went well, and the ingester list then. */
  datatype Outcome = Outcome(ok: bool, list: seq<Running>)

  /** Starts the engines from the i-th on, up to the first that fails. */
  function StartEngines(env: Env, list: seq<Running>, bin: string, vhost: string, ingest: Directive, i: nat): Outcome
    decreases |Engines(ingest)| - i
  {
    if i >= |Engines(ingest)| then Outcome(true, list)
    else
      match Initialize(env, bin, vhost, ingest, Some(Engines(ingest)[i]))
      case None => Outcome(false, list)
      case Some(f) => StartEngines(env, list + [Running(f, vhost, ingest.Arg0())], bin, vhost, ingest, i + 1)
  }

  /** Starts what one ingest directive describes. */
  function Start(env: Env, list: seq<Running>, vhost: string, ingest: Directive): Outcome {
    var bin := Setting(ingest, "ffmpeg", "");
    if !Enabled(ingest) then Outcome(true, list)
    else if bin == "" then Outcome(false, list)
    else if Engines(ingest) == [] then
      match Initialize(env, bin, vhost, ingest, None)
      case None => Outcome(false, list)
      case Some(f) => Outcome(true, list + [Running(f, vhost, ingest.Arg0())])
    else StartEngines(env, list, bin, vhost, ingest, 0)
  }

  /** Starts the ingest directives from the i-th on, up to the first that fails. */
  function StartAll(env: Env, list: seq<Running>, vhost: string, ingests: seq<Directive>, i: nat): Outcome
    decreases |ingests| - i
  {
    if i >= |ingests| then Outcome(true, list)
    else
      var first := Start(env, list, vhost, ingests[i]);
      if !first.ok then first else StartAll(env, first.list, vhost, ingests, i + 1)
  }

  /** Starts all ingest directives of a vhost. */
  function StartVhost(env: Env, list: seq<Running>, vhost: Directive): Outcome {
    StartAll(env, list, vhost.Arg0(), Ingests(vhost), 0)
  }

  function Vhosts(root: Directive): seq<Directive> {
    Named(root.directives, "vhost")
  }

  /** Starts the vhosts of a configuration from the i-th on, up to the first that fails. Whether a vhost
      is enabled does not matter here; its directives are those found under its name. */
  function StartConf(env: Env, list: seq<Running>, root: Directive, i: nat): Outcome
    decreases |Vhosts(root)| - i
  {
    if i >= |Vhosts(root)| then Outcome(true, list)
    else
      var conf := GetVhost(root, Vhosts(root)[i].Arg0());
      var s := if conf.None? then Outcome(true, list)
               else StartAll(env, list, Vhosts(root)[i].Arg0(), Ingests(conf.value), 0);
      if s.ok then StartConf(env, s.list, root, i + 1) else s
  }

  /** The ingesters a server has for a vhost when it starts with this configuration. */
  function Fresh(env: Env, vhost: Directive): Outcome {
    StartVhost(env, [], vhost)
  }

  predicate Is(r: Running, vhost: string, id: Option<string>) {
    r.vhost == vhost && (id.Some? ==> r.id == id.value)
  }

  /** The list without the ingesters of a vhost, or of one ingest directive of it. */
  function Without(list: seq<Running>, vhost: string, id: Option<string>): seq<Running> {
    if list == [] then []
    else (if Is(list[0], vhost, id) then [] else [list[0]]) + Without(list[1..], vhost, id)
  }

  /** Erasing from the it-th position on, the way the reload handlers walk over the list. */
  function Erase(list: seq<Running>, it: nat, vhost: string, id: Option<string>): seq<Running>
    requires it <= |list|
    decreases |list| - it
  {
    if it == |list| then list
    else if Is(list[it], vhost, id) then Erase(list[..it] + list[it + 1..], it, vhost, id)
    else Erase(list, it + 1, vhost, id)
  }

  lemma {:induction false} EraseFilters(list: seq<Running>, it: nat, vhost: string, id: Option<string>)
    requires it <= |list|
    ensures Erase(list, it, vhost, id) == list[..it] + Without(list[it..], vhost, id)
    decreases |list| - it
  {
    if it < |list| {
      assert list[it..][1..] == list[it + 1..];
      if Is(list[it], vhost, id) {
        var erased := list[..it] + list[it + 1..];
        EraseFilters(erased, it, vhost, id);
        assert erased[..it] == list[..it] && erased[it..] == list[it + 1..];
      } else {
        EraseFilters(list, it + 1, vhost, id);
        assert list[..it + 1] == list[..it] + [list[it]];
      }
    }
  }

  // ---------------------------------------------------------------- the reload, as a function

  /** Stops what the new configuration no longer has. */
  function AfterRemoved(list: seq<Running>, vhost: Directive, was: Directive, i: nat): seq<Running>
    decreases |Ingests(was)| - i
  {
    if i >= |Ingests(was)| then list
    else
      var id := Ingests(was)[i].Arg0();
      var now := if vhost.GetWithArg("ingest", id).Some? then list else Without(list, vhost.Arg0(), Some(id));
      AfterRemoved(now, vhost, was, i + 1)
  }

  /** Starts what the old configuration did not have. */
  function AfterAdded(env: Env, list: seq<Running>, vhost: Directive, was: Directive, i: nat): Outcome
    decreases |Ingests(vhost)| - i
  {
    if i >= |Ingests(vhost)| then Outcome(true, list)
    else
      var id := Ingests(vhost)[i].Arg0();
      var d := vhost.GetWithArg("ingest", id);
      var s := if was.GetWithArg("ingest", id).Some? || d.None? then Outcome(true, list)
               else Start(env, list, vhost.Arg0(), d.value);
      if s.ok then AfterAdded(env, s.list, vhost, was, i + 1) else s
  }

  /** Restarts what both have, differently. */
  function AfterUpdated(env: Env, list: seq<Running>, vhost: Directive, was: Directive, i: nat): Outcome
    decreases |Ingests(vhost)| - i
  {
    if i >= |Ingests(vhost)| then Outcome(true, list)
    else
      var id := Ingests(vhost)[i].Arg0();
      var d, o := vhost.GetWithArg("ingest", id), was.GetWithArg("ingest", id);
      var s := if o.None? || d.None? || SameDirective(Ingests(vhost)[i], o.value) then Outcome(true, list)
               else Start(env, Without(list, vhost.Arg0(), Some(id)), vhost.Arg0(), d.value);
      if s.ok then AfterUpdated(env, s.list, vhost, was, i + 1) else s
  }

  /** The whole reload of a vhost's ingest directives. */
  function AfterReload(env: Env, list: seq<Running>, vhost: Directive, was: Directive): Outcome {
    var added := AfterAdded(env, AfterRemoved(list, vhost, was, 0), vhost, was, 0);
    if added.ok then AfterUpdated(env, added.list, vhost, was, 0) else added
  }

  /** The ingest part of reloading a vhost: it may be switched on, switched off or changed. */
  function AfterReloadVhost(env: Env, list: seq<Running>, name: string, now: Option<Directive>,
      was: Option<Directive>): Outcome {
    if VhostEnabled(now) && !VhostEnabled(was) then StartVhost(env, list, now.value)
    else if VhostEnabled(was) && !VhostEnabled(now) then Outcome(true, Without(list, name, None))
    else if IsEdge(was) != IsEdge(now) then Outcome(false, list)
    else if VhostEnabled(now) then AfterReload(env, list, now.value, was.value)
    else Outcome(true, list)
  }

  lemma {:induction false} NamedFound(ds: seq<Directive>, d: Directive, name: string)
    requires d in Named(ds, name)
    ensures d in ds && d.name == name && FindFirst(ds, name, Some(d.Arg0())).Some?
  {
    if ds[0].name == name && ds[0] == d {
    } else {
      NamedFound(ds[1..], d, name);
    }
  }

  // ---------------------------------------------------------------- the ingester list

  class Ingester {
    var ingesters: seq<Running>
    const env: Env

    constructor (e: Env)
      ensures env == e && ingesters == []
    {
      env, ingesters := e, [];
    }

    /** Starts the engines of one ingest directive. */
    method ParseEngines(vhost: Directive, ingest: Directive) returns (ok: bool)
      modifies this
      ensures Outcome(ok, ingesters) == Start(env, old(ingesters), vhost.Arg0(), ingest)
    {
      if !Enabled(ingest) {
        return true;
      }
      var bin := Setting(ingest, "ffmpeg", "");
      if bin == "" {
        return false;
      }
      var engines := Engines(ingest);
      if engines == [] {
        var ffmpeg := Initialize(env, bin, vhost.Arg0(), ingest, None);
        if ffmpeg.None? {
          return false;
        }
        ingesters := ingesters + [Running(ffmpeg.value, vhost.Arg0(), ingest.Arg0())];
        return true;
      }
      ghost var target := StartEngines(env, ingesters, bin, vhost.Arg0(), ingest, 0);
      for i := 0 to |engines|
        invariant target == StartEngines(env, ingesters, bin, vhost.Arg0(), ingest, i)
      {
        hide Initialize, Setting, Enabled;
        var ffmpeg := Initialize(env, bin, vhost.Arg0(), ingest, Some(engines[i]));
        if ffmpeg.None? {
          return false;
        }
        ingesters := ingesters + [Running(ffmpeg.value, vhost.Arg0(), ingest.Arg0())];
      }
      return true;
    }

    /** Starts all ingest directives of a vhost; the directives are looked up again by name. */
    method ParseIngesters(root: Directive, vhost: Directive) returns (ok: bool)
      modifies this
      ensures var conf := GetVhost(root, vhost.Arg0());
              Outcome(ok, ingesters) == if conf.None? then Outcome(true, old(ingesters))
                                        else StartAll(env, old(ingesters), vhost.Arg0(), Ingests(conf.value), 0)
    {
      hide Start;
      var conf := GetVhost(root, vhost.Arg0());
      if conf.None? {
        return true;
      }
      var ingests := Ingests(conf.value);
      ghost var target := StartAll(env, ingesters, vhost.Arg0(), ingests, 0);
      for i := 0 to |ingests|
        invariant target == StartAll(env, ingesters, vhost.Arg0(), ingests, i)
      {
        ok := ParseEngines(vhost, ingests[i]);
        if !ok {
          return;
        }
      }
      return true;
    }

    /** Starts the ingest directives of all vhosts. */
    method Parse(root: Directive) returns (ok: bool)
      modifies this
      ensures Outcome(ok, ingesters) == StartConf(env, old(ingesters), root, 0)
    {
      hide StartAll, GetVhost;
      var vhosts := Vhosts(root);
      ghost var target := StartConf(env, ingesters, root, 0);
      for i := 0 to |vhosts|
        invariant target == StartConf(env, ingesters, root, i)
      {
        ok := ParseIngesters(root, vhosts[i]);
        if !ok {
          return;
        }
      }
      return true;
    }

    /** Starts with the server; when anything fails nothing at all is ingested, not even after a reload. */
    method Begin(root: Directive) returns (running: bool)
      modifies this
      ensures var started := StartConf(env, old(ingesters), root, 0);
              running == started.ok && ingesters == if started.ok then started.list else []
    {
      running := Parse(root);
      if !running {
        ingesters := [];
      }
    }

    /** Stops ingesters and erases them from the list while walking over it. */
    method Stop(vhost: string, id: Option<string>)
      modifies this
      ensures ingesters == Without(old(ingesters), vhost, id)
    {
      EraseFilters(ingesters, 0, vhost, id);
      assert ingesters[0..] == ingesters;
      var it := 0;
      while it < |ingesters|
        invariant it <= |ingesters|
        invariant Erase(old(ingesters), 0, vhost, id) == Erase(ingesters, it, vhost, id)
        decreases |ingesters| - it
      {
        if !Is(ingesters[it], vhost, id) {
          it := it + 1;
          continue;
        }
        ingesters := ingesters[..it] + ingesters[it + 1..];
      }
    }

    method OnReloadVhostRemoved(vhost: string)
      modifies this
      ensures ingesters == Without(old(ingesters), vhost, None)
    {
      Stop(vhost, None);
    }

    method OnReloadIngestRemoved(vhost: string, id: string)
      modifies this
      ensures ingesters == Without(old(ingesters), vhost, Some(id))
    {
      Stop(vhost, Some(id));
    }

    method OnReloadVhostAdded(root: Directive, vhost: string) returns (ok: bool)
      requires GetVhost(root, vhost).Some?
      modifies this
      ensures var conf := GetVhost(root, vhost).value;
              var found := GetVhost(root, conf.Arg0());
              Outcome(ok, ingesters) == if found.None? then Outcome(true, old(ingesters))
                                        else StartAll(env, old(ingesters), conf.Arg0(), Ingests(found.value), 0)
    {
      ok := ParseIngesters(root, GetVhost(root, vhost).value);
    }

    method OnReloadIngestAdded(root: Directive, vhost: string, id: string) returns (ok: bool)
      requires GetVhost(root, vhost).Some? && GetVhost(root, vhost).value.GetWithArg("ingest", id).Some?
      modifies this
      ensures var conf := GetVhost(root, vhost).value;
              Outcome(ok, ingesters) == Start(env, old(ingesters), conf.Arg0(), conf.GetWithArg("ingest", id).value)
    {
      var conf := GetVhost(root, vhost).value;
      ok := ParseEngines(conf, conf.GetWithArg("ingest", id).value);
    }

    method OnReloadIngestUpdated(root: Directive, vhost: string, id: string) returns (ok: bool)
      requires GetVhost(root, vhost).Some? && GetVhost(root, vhost).value.GetWithArg("ingest", id).Some?
      modifies this
      ensures var conf := GetVhost(root, vhost).value;
              Outcome(ok, ingesters)
              == Start(env, Without(old(ingesters), vhost, Some(id)), conf.Arg0(), conf.GetWithArg("ingest", id).value)
    {
      OnReloadIngestRemoved(vhost, id);
      ok := OnReloadIngestAdded(root, vhost, id);
    }
  }

  /** The reload of a vhost's ingest directives: events for what was removed, added and changed. */
  method ReloadIngest(handler: Ingester, root: Directive, vhost: Directive, oldVhost: Directive) returns (ok: bool)
    requires root.GetWithArg("vhost", vhost.Arg0()) == Some(vhost)
    modifies handler
    ensures Outcome(ok, handler.ingesters) == AfterReload(handler.env, old(handler.ingesters), vhost, oldVhost)
  {
    hide Start, SameDirective, Without;
    var olds, news, name := Ingests(oldVhost), Ingests(vhost), vhost.Arg0();
    ghost var removed := AfterRemoved(handler.ingesters, vhost, oldVhost, 0);
    for i := 0 to |olds|
      invariant removed == AfterRemoved(handler.ingesters, vhost, oldVhost, i)
    {
      var id := olds[i].Arg0();
      if vhost.GetWithArg("ingest", id).Some? {
        continue;
      }
      handler.OnReloadIngestRemoved(name, id);
    }
    ghost var added := AfterAdded(handler.env, handler.ingesters, vhost, oldVhost, 0);
    for i := 0 to |news|
      invariant added == AfterAdded(handler.env, handler.ingesters, vhost, oldVhost, i)
    {
      NamedFound(vhost.directives, news[i], "ingest");
      var id := news[i].Arg0();
      if oldVhost.GetWithArg("ingest", id).Some? {
        continue;
      }
      ok := handler.OnReloadIngestAdded(root, name, id);
      if !ok {
        return;
      }
    }
    ghost var updated := AfterUpdated(handler.env, handler.ingesters, vhost, oldVhost, 0);
    for i := 0 to |news|
      invariant updated == AfterUpdated(handler.env, handler.ingesters, vhost, oldVhost, i)
    {
      NamedFound(vhost.directives, news[i], "ingest");
      var id := news[i].Arg0();
      var oldIngester := oldVhost.GetWithArg("ingest", id);
      if oldIngester.None? || DirectiveEquals(Some(news[i]), oldIngester) {
        continue;
      }
      ok := handler.OnReloadIngestUpdated(root, name, id);
      if !ok {
        return;
      }
    }
    ok := true;
  }

  /** The ingest part of reloading a vhost: it may be switched on, switched off or changed. */
  method ReloadVhost(handler: Ingester, root: Directive, oldRoot: Directive, name: string) returns (ok: bool)
    modifies handler
    ensures Outcome(ok, handler.ingesters)
         == AfterReloadVhost(handler.env, old(handler.ingesters), name,
                             root.GetWithArg("vhost", name), oldRoot.GetWithArg("vhost", name))
  {
    var oldVhost, newVhost := oldRoot.GetWithArg("vhost", name), root.GetWithArg("vhost", name);
    if !VhostEnabled(oldVhost) && VhostEnabled(newVhost) {
      ok := handler.OnReloadVhostAdded(root, name);
      return;
    }
    if VhostEnabled(oldVhost) && !VhostEnabled(newVhost) {
      handler.OnReloadVhostRemoved(name);
      return true;
    }
    if IsEdge(oldVhost) != IsEdge(newVhost) {
      return false;
    }
    if VhostEnabled(newVhost) && VhostEnabled(oldVhost) {
      ok := ReloadIngest(handler, root, newVhost.value, oldVhost.value);
      return;
    }
    ok := true;
  }

  /** The names of the vhosts a reload looks at: those of the new configuration, then those of the old one
      that the new one has no more. */
  function VhostNames(root: Directive, oldRoot: Directive): seq<string> {
    NamesFrom(Vhosts(root), None, 0) + NamesFrom(Vhosts(oldRoot), Some(root), 0)
  }

  /** The names of the vhosts from the i-th on, without those that another configuration has. */
  function NamesFrom(vhosts: seq<Directive>, other: Option<Directive>, i: nat): seq<string>
    decreases |vhosts| - i
  {
    if i >= |vhosts| then []
    else
      var name := vhosts[i].Arg0();
      (if other.Some? && other.value.GetWithArg("vhost", name).Some? then [] else [name])
          + NamesFrom(vhosts, other, i + 1)
  }

  /** Reloads the vhosts from the i-th name on, up to the first error. */
  function AfterReloadVhosts(env: Env, list: seq<Running>, root: Directive, oldRoot: Directive, names: seq<string>,
      i: nat): Outcome
    decreases |names| - i
  {
    if i >= |names| then Outcome(true, list)
    else
      var r := AfterReloadVhost(env, list, names[i], root.GetWithArg("vhost", names[i]),
          oldRoot.GetWithArg("vhost", names[i]));
      if r.ok then AfterReloadVhosts(env, r.list, root, oldRoot, names, i + 1) else r
  }

  method CollectNames(vhosts: seq<Directive>, other: Option<Directive>) returns (names: seq<string>)
    ensures names == NamesFrom(vhosts, other, 0)
  {
    names := [];
    for i := 0 to |vhosts|
      invariant names + NamesFrom(vhosts, other, i) == NamesFrom(vhosts, other, 0)
    {
      ghost var rest := NamesFrom(vhosts, other, i + 1);
      if other.Some? && other.value.GetWithArg("vhost", vhosts[i].Arg0()).Some? {
        assert [] + rest == rest;
        continue;
      }
      Assoc(names, [vhosts[i].Arg0()], rest);
      names := names + [vhosts[i].Arg0()];
    }
  }

  /** The ingest part of a reload: one vhost after the other, up to the first error. */
  method ReloadVhosts(handler: Ingester, root: Directive, oldRoot: Directive) returns (ok: bool)
    modifies handler
    ensures Outcome(ok, handler.ingesters)
         == AfterReloadVhosts(handler.env, old(handler.ingesters), root, oldRoot, VhostNames(root, oldRoot), 0)
  {
    hide AfterReloadVhost, NamesFrom, FindFirst;
    var names := CollectNames(Vhosts(root), None);
    var removed := CollectNames(Vhosts(oldRoot), Some(root));
    names := names + removed;
    ghost var target := AfterReloadVhosts(handler.env, handler.ingesters, root, oldRoot, names, 0);
    for i := 0 to |names|
      invariant target == AfterReloadVhosts(handler.env, handler.ingesters, root, oldRoot, names, i)
    {
      ok := ReloadVhost(handler, root, oldRoot, names[i]);
      if !ok {
        return;
      }
    }
    ok := true;
  }
}
