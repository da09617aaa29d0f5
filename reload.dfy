/** Hot reload of config.py: the process-wide `_config` slot with `get_config`
    and `create_config`, and `FileChangeHandler.on_modified`, which filters
    file-modification events by name, debounces them and installs a freshly
    loaded configuration. Time is an explicit integer argument, and the
    configuration loader (`Config(filename)`) is a function argument that
    stands for reading and parsing the file as it is on disk at that call. */
module Reload {
  import opened Python
  import opened ConfigStore

  /** `_config_file_name`. */
  const ConfigFileName: string := "config.ini"

  /** Events closer than this to the last accepted one are dropped. */
  const DebounceWindow: int := 5

  /** The tail that `os.path.split` returns on POSIX systems (`posixpath`):
      everything after the last '/'. Windows separators and drives are not
      modelled. */
  function BaseName(path: string): (name: string)
    ensures |name| <= |path|
  {
    if path == [] then []
    else if path[|path| - 1] == '/' then []
    else BaseName(path[..|path| - 1]) + [path[|path| - 1]]
  }

  /** The tail is a suffix of the path without '/', and it is preceded by a
      '/' unless it is the whole path. */
  lemma {:induction false} BaseNameIsTail(path: string)
    ensures var name := BaseName(path);
      && '/' !in name
      && |name| <= |path| && name == path[|path| - |name|..]
      && (|name| < |path| ==> path[|path| - |name| - 1] == '/')
  {
    if path != [] && path[|path| - 1] != '/' {
      var init, c := path[..|path| - 1], path[|path| - 1];
      BaseNameIsTail(init);
      var rest := BaseName(init);
      var k := |init| - |rest|;
      assert path == init + [c];
      assert BaseName(path) == rest + [c];
      assert path[k..] == init[k..] + [c];
      assert k > 0 ==> path[k - 1] == init[k - 1];
    }
  }

  /** A directory, a '/' and a name without '/' has that name as its tail. */
  lemma {:induction false} BaseNameOfJoin(dir: string, name: string)
    requires '/' !in name
    ensures BaseName(dir + "/" + name) == name
    decreases |name|
  {
    var p := dir + "/" + name;
    if name == [] {
      assert p[|p| - 1] == '/';
    } else {
      var init := name[..|name| - 1];
      assert p[..|p| - 1] == dir + "/" + init;
      BaseNameOfJoin(dir, init);
      assert name == init + [name[|name| - 1]];
    }
  }

  /** What `on_modified` does with one event, given the last accepted time. */
  datatype Verdict =
    | OtherFile   // the file name is not config.ini: ignored
    | Debounced   // within the debounce window of the last accepted event: ignored
    | Accepted    // the configuration is reloaded

  function Decide(last: int, path: string, now: int): (v: Verdict)
    ensures v == OtherFile <==> BaseName(path) != ConfigFileName
    ensures v == Accepted <==> BaseName(path) == ConfigFileName && now - last > DebounceWindow
  {
    if BaseName(path) != ConfigFileName then OtherFile
    else if now - last <= DebounceWindow then Debounced
    else Accepted
  }

  /** A file-modification event: the path it names and the time it arrived. */
  datatype Event = Modified(path: string, time: int)

  /** `last_event_time` after the handler has seen `events`, starting from 0. */
  function LastEventTime(events: seq<Event>): (t: int)
    ensures t == 0 || t > DebounceWindow
  {
    if events == [] then 0
    else
      var prev := LastEventTime(events[..|events| - 1]);
      var e := events[|events| - 1];
      if Decide(prev, e.path, e.time) == Accepted then e.time else prev
  }

  /** The times of the events, in order, that passed the name filter and the
      debounce gate (whether or not the load that followed succeeded). */
  function AcceptedTimes(events: seq<Event>): (ts: seq<int>)
    ensures |ts| <= |events|
  {
    if events == [] then []
    else
      var init := events[..|events| - 1];
      var e := events[|events| - 1];
      if Decide(LastEventTime(init), e.path, e.time) == Accepted
      then AcceptedTimes(init) + [e.time]
      else AcceptedTimes(init)
  }

  /** The time of the latest accepted event, 0 before the first. */
  function Latest(ts: seq<int>): int
  {
    if ts == [] then 0 else ts[|ts| - 1]
  }

  /** Every accepted time is past the first window, and any two are more
      than the debounce window apart. */
  ghost predicate WellSpaced(ts: seq<int>)
  {
    && (forall i :: 0 <= i < |ts| ==> ts[i] > DebounceWindow)
    && (forall i, j :: 0 <= i < j < |ts| ==> ts[j] - ts[i] > DebounceWindow)
  }

  lemma WellSpacedExtend(ts: seq<int>, t: int)
    requires WellSpaced(ts)
    requires t - Latest(ts) > DebounceWindow
    ensures WellSpaced(ts + [t])
  {
    var us := ts + [t];
    forall i | 0 <= i < |ts| ensures ts[i] <= Latest(ts) {
      if i < |ts| - 1 {
        assert ts[|ts| - 1] - ts[i] > DebounceWindow;
      }
    }
    forall i, j | 0 <= i < j < |us| ensures us[j] - us[i] > DebounceWindow {
      if j == |us| - 1 {
        assert us[i] == ts[i] <= Latest(ts);
      } else {
        assert us[i] == ts[i] && us[j] == ts[j];
      }
    }
  }

  /** Any two accepted events are more than the debounce window apart, and
      `last_event_time` is the time of the latest one (0 before the first). */
  lemma {:induction false} AcceptedTimesSpaced(events: seq<Event>)
    ensures LastEventTime(events) == Latest(AcceptedTimes(events))
    ensures WellSpaced(AcceptedTimes(events))
  {
    if events != [] {
      var init := events[..|events| - 1];
      var e := events[|events| - 1];
      AcceptedTimesSpaced(init);
      if Decide(LastEventTime(init), e.path, e.time) == Accepted {
        WellSpacedExtend(AcceptedTimes(init), e.time);
      }
    }
  }

  /** Only events naming config.ini are ever accepted. */
  lemma {:induction false} OnlyConfigFileAccepted(events: seq<Event>)
    requires forall k :: 0 <= k < |events| ==> BaseName(events[k].path) != ConfigFileName
    ensures AcceptedTimes(events) == [] && LastEventTime(events) == 0
  {
    if events != [] {
      OnlyConfigFileAccepted(events[..|events| - 1]);
    }
  }

  /** One more event: it moves `last_event_time` and is recorded exactly when
      `Decide` accepts it. */
  lemma AcceptedTimesStep(events: seq<Event>, e: Event)
    ensures var accepted := Decide(LastEventTime(events), e.path, e.time) == Accepted;
      && LastEventTime(events + [e]) == (if accepted then e.time else LastEventTime(events))
      && AcceptedTimes(events + [e]) == AcceptedTimes(events) + (if accepted then [e.time] else [])
  {
    assert (events + [e])[..|events|] == events;
  }

  lemma FirstEvent(e: Event)
    requires Decide(0, e.path, e.time) == Accepted
    ensures LastEventTime([e]) == e.time && AcceptedTimes([e]) == [e.time]
  {
    AcceptedTimesStep([], e);
    assert [] + [e] == [e];
  }

  /** Two events for config.ini: the second is accepted only when it comes
      more than the debounce window after the first. */
  lemma TwoEvents(p: string, t1: int, t2: int)
    requires BaseName(p) == ConfigFileName
    requires t1 > DebounceWindow
    ensures t2 - t1 <= DebounceWindow ==> AcceptedTimes([Modified(p, t1)] + [Modified(p, t2)]) == [t1]
    ensures t2 - t1 > DebounceWindow ==> AcceptedTimes([Modified(p, t1)] + [Modified(p, t2)]) == [t1, t2]
  {
    var first, second := Modified(p, t1), Modified(p, t2);
    FirstEvent(first);
    AcceptedTimesStep([first], second);
    if t2 - t1 > DebounceWindow {
      assert [t1] + [t2] == [t1, t2];
    } else {
      assert [t1] + [] == [t1];
    }
  }

  /** `create_config(path)`: a configuration loaded from any path, not installed. */
  function CreateConfig(path: string, load: string -> Result<Config>): (r: Result<Config>)
    ensures r == load(path)
  {
    load(path)
  }

  /** The module-level `_config` slot. It always holds a fully loaded
      configuration, replaced as a whole on reload. */
  class Registry {
    var current: Config

    /** Module import: `_config = Config(_config_file_name)`. The loader stands
        for everything `ConfigParser.read` does with the file; when it raises
        (a parsing, duplicate-section, duplicate-option or UTF-8 decoding
        error) the import aborts, which the requires rules out. A missing file
        is not an error: the loader then yields an empty `Config`. */
    constructor (load: string -> Result<Config>)
      requires load(ConfigFileName).Ok?
      ensures current == load(ConfigFileName).value
    {
      current := load(ConfigFileName).value;
    }

    /** `get_config()`. */
    method GetConfig() returns (c: Config)
      ensures c == current
    {
      c := current;
    }
  }

  /** What one call of `on_modified` ended with. */
  datatype Outcome =
    | Ignored(why: Verdict)   // OtherFile or Debounced: nothing changed
    | Reloaded                // a fresh configuration was installed
    | ReloadFailed(e: Error)  // loading raised; the old configuration stays

  /** `FileChangeHandler`: the debounce state of one watcher. */
  class FileChangeHandler {
    var lastEventTime: int
    /** The events this handler has been given, oldest first. */
    ghost var history: seq<Event>

    ghost predicate Valid()
      reads this
    {
      lastEventTime == LastEventTime(history)
    }

    constructor ()
      ensures Valid() && history == [] && lastEventTime == 0
    {
      lastEventTime := 0;
      history := [];
    }

    /** `on_modified(ev)` for an event on `path` arriving at time `now`.
        `last_event_time` is updated before the file is loaded, so a load that
        raises still starts a new debounce window. */
    method OnModified(path: string, now: int, load: string -> Result<Config>, registry: Registry)
      returns (outcome: Outcome)
      requires Valid()
      modifies this, registry
      ensures Valid()
      ensures history == old(history) + [Modified(path, now)]
      ensures Decide(old(lastEventTime), path, now) != Accepted ==>
        && outcome == Ignored(Decide(old(lastEventTime), path, now))
        && lastEventTime == old(lastEventTime)
        && registry.current == old(registry.current)
      ensures Decide(old(lastEventTime), path, now) == Accepted ==>
        && lastEventTime == now
        && (load(ConfigFileName).Ok? ==>
              outcome == Reloaded && registry.current == load(ConfigFileName).value)
        && (load(ConfigFileName).Err? ==>
              outcome == ReloadFailed(load(ConfigFileName).error) && registry.current == old(registry.current))
    {
      AcceptedTimesStep(history, Modified(path, now));
      history := history + [Modified(path, now)];
      var verdict := Decide(lastEventTime, path, now);
      if verdict != Accepted {
        return Ignored(verdict);
      }
      lastEventTime := now;
      var loaded := load(ConfigFileName);
      if loaded.Err? {
        return ReloadFailed(loaded.error);
      }
      registry.current := loaded.value;
      outcome := Reloaded;
    }
  }

  /** A watcher that starts with config.ini installed is handed two events
      for it, 5 apart, and then one for another file: only the first reloads. */
  method DebounceScenario(load: string -> Result<Config>, dir: string, t: int)
    requires load(ConfigFileName).Ok?
    requires t > DebounceWindow
  {
    var registry := new Registry(load);
    var handler := new FileChangeHandler();
    var watched, notes := dir + "/" + ConfigFileName, dir + "/" + "notes.txt";
    BaseNameOfJoin(dir, ConfigFileName);
    BaseNameOfJoin(dir, "notes.txt");
    var first := handler.OnModified(watched, t, load, registry);
    assert first == Reloaded;
    var second := handler.OnModified(watched, t + DebounceWindow, load, registry);
    assert second == Ignored(Debounced);
    var other := handler.OnModified(notes, t + 100, load, registry);
    assert other == Ignored(OtherFile);
    assert handler.lastEventTime == t;
  }
}
