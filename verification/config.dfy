/**
 * The settings helper: a JSON settings file merged with built-in defaults,
 * read with a fallback, and changed key by key or several keys at once.
 *
 * Reading and writing the file are parameters: the file as it was found
 * (`ConfigFile`) and whether a write went through (`written`).
 */
module Config {
  import opened Wrappers

  /** A decoded JSON value. */
  datatype Value =
    | Null
    | Bool(b: bool)
    | Int(i: int)
    | Real(r: real)
    | Str(s: string)
    | Arr(items: seq<Value>)
    | Obj(fields: map<string, Value>)

  /** The settings file as the program finds it. */
  datatype ConfigFile =
    | Absent              // no file at the configured path
    | Unreadable          // the file exists, but opening or decoding it raises
    | Parsed(json: Value) // the decoded top-level value

  /** The helper's state: the settings it holds in memory. */
  datatype Manager = Manager(config: Value)

  /** The default settings, in the order the merge loop visits them. */
  const DefaultItems: seq<(string, Value)> := [
    ("database_path", Str("student.db")),
    ("backup_auto", Bool(true)),
    ("backup_interval", Int(7)),
    ("default_year", Int(2024)),
    ("ui_theme", Str("light")),
    ("language", Str("ko")),
    ("auto_save", Bool(true)),
    ("search_auto", Bool(true)),
    ("stats_auto_refresh", Bool(true)),
    ("shortcuts_enabled", Bool(true))
  ]

  function KeysOf(items: seq<(string, Value)>): set<string>
  {
    set i | 0 <= i < |items| :: items[i].0
  }

  /** The dictionary an item list builds; the first occurrence of a key wins. */
  function ItemsMap(items: seq<(string, Value)>): (r: map<string, Value>)
    ensures r.Keys == KeysOf(items)
    ensures |items| > 0 ==> r[items[0].0] == items[0].1
  {
    if |items| == 0 then map[]
    else
      assert KeysOf(items) == {items[0].0} + KeysOf(items[1..]) by {
        assert forall i :: 0 < i < |items| ==> items[i].0 == items[1..][i - 1].0;
        assert forall i :: 0 <= i < |items| - 1 ==> items[1..][i].0 == items[i + 1].0;
      }
      ItemsMap(items[1..])[items[0].0 := items[0].1]
  }

  // ---------------------------------------------------------------------------
  // load_config
  // ---------------------------------------------------------------------------

  /**
   * The merge loop: each item whose key the settings lack is added with the
   * item's value; keys already present are left alone.
   */
  function MergeFrom(config: map<string, Value>, items: seq<(string, Value)>): (r: map<string, Value>)
    ensures r.Keys == config.Keys + KeysOf(items)
    ensures forall k :: k in config ==> r[k] == config[k]
    decreases |items|
  {
    if |items| == 0 then config
    else
      assert KeysOf(items) == {items[0].0} + KeysOf(items[1..]) by {
        assert forall i :: 0 < i < |items| ==> items[i].0 == items[1..][i - 1].0;
        assert forall i :: 0 <= i < |items| - 1 ==> items[1..][i].0 == items[i + 1].0;
      }
      var (k, v) := items[0];
      MergeFrom(if k in config then config else config[k := v], items[1..])
  }

  /** The merge is the map union in which the settings' own values win over the items. */
  lemma {:induction false} MergeIsUnion(config: map<string, Value>, items: seq<(string, Value)>)
    ensures MergeFrom(config, items) == ItemsMap(items) + config
    decreases |items|
  {
    if |items| > 0 {
      var (k, v) := items[0];
      var next := if k in config then config else config[k := v];
      MergeIsUnion(next, items[1..]);
      assert ItemsMap(items) == ItemsMap(items[1..])[k := v];
      UpdateUnion(ItemsMap(items[1..]), config, k, v);
    }
  }

  /** Adding `k := v` under a union: lost if the right side has `k`, the same as adding it there otherwise. */
  lemma UpdateUnion(a: map<string, Value>, c: map<string, Value>, k: string, v: Value)
    ensures k in c ==> a[k := v] + c == a + c
    ensures k !in c ==> a[k := v] + c == a + c[k := v]
  {
  }

  /** Merging the same items a second time changes nothing. */
  lemma MergeIdempotent(config: map<string, Value>, items: seq<(string, Value)>)
    ensures MergeFrom(MergeFrom(config, items), items) == MergeFrom(config, items)
  {
    var once := MergeFrom(config, items);
    MergeIsUnion(config, items);
    MergeIsUnion(once, items);
    assert ItemsMap(items) + once == once;
  }

  /** Python's `key in s` for two strings: `key` occurs in `s` as a substring. */
  predicate Occurs(key: string, s: string)
    decreases |s|
  {
    |key| <= |s| && (s[..|key|] == key || Occurs(key, s[1..]))
  }

  /** Python's `key in v` for a JSON top level that is not an object; `None` where `in` raises. */
  function ContainsKey(v: Value, key: string): (r: Option<bool>)
    requires !v.Obj?
    ensures r.Some? <==> v.Arr? || v.Str?
  {
    match v
    case Arr(items) => Some(Str(key) in items)
    case Str(s) => Some(Occurs(key, s))
    case Null => None
    case Bool(_) => None
    case Int(_) => None
    case Real(_) => None
  }

  /** What reading the settings produces: the settings, and what was written out, if anything. */
  datatype Loaded = Loaded(config: Value, written: Option<Value>)

  /**
   * `load_config` with the default list `defaults`. A missing file gives the
   * defaults, which are also written out. A file that cannot be read or
   * decoded gives the defaults. A decoded object gets the missing defaults
   * filled in, in memory only. Any other top level survives only if the
   * membership test finds every default key in it; otherwise the first
   * missing key's assignment raises and the defaults are used.
   */
  function LoadConfig(file: ConfigFile, defaults: seq<(string, Value)>): (r: Loaded)
    ensures file.Absent? ==> r == Loaded(Obj(ItemsMap(defaults)), Some(Obj(ItemsMap(defaults))))
    ensures !file.Absent? ==> r.written == None
    ensures file.Unreadable? ==> r.config == Obj(ItemsMap(defaults))
    ensures file.Parsed? && file.json.Obj? ==>
              && r.config.Obj?
              && r.config.fields.Keys == file.json.fields.Keys + KeysOf(defaults)
              && (forall k :: k in file.json.fields ==> r.config.fields[k] == file.json.fields[k])
              && (forall k :: k in ItemsMap(defaults) && k !in file.json.fields ==>
                                r.config.fields[k] == ItemsMap(defaults)[k])
    ensures file.Parsed? && !file.json.Obj? ==>
              r.config == (if (|defaults| == 0 || file.json.Arr? || file.json.Str?)
                              && forall k :: k in KeysOf(defaults) ==> ContainsKey(file.json, k) == Some(true)
                           then file.json
                           else Obj(ItemsMap(defaults)))
  {
    match file
    case Absent => Loaded(Obj(ItemsMap(defaults)), Some(Obj(ItemsMap(defaults))))
    case Unreadable => Loaded(Obj(ItemsMap(defaults)), None)
    case Parsed(json) =>
      if json.Obj? then
        MergeIsUnion(json.fields, defaults);
        Loaded(Obj(MergeFrom(json.fields, defaults)), None)
      else
        KeepsTopLevelAll(json, defaults);
        if KeepsTopLevel(json, defaults) then Loaded(json, None)
        else Loaded(Obj(ItemsMap(defaults)), None)
  }

  /** The merge loop over a non-object top level: it survives iff every key tests as present. */
  predicate KeepsTopLevel(json: Value, items: seq<(string, Value)>)
    requires !json.Obj?
    decreases |items|
  {
    |items| == 0 || (ContainsKey(json, items[0].0) == Some(true) && KeepsTopLevel(json, items[1..]))
  }

  lemma {:induction false} KeepsTopLevelAll(json: Value, items: seq<(string, Value)>)
    requires !json.Obj?
    ensures KeepsTopLevel(json, items) <==>
              (|items| == 0 || json.Arr? || json.Str?)
              && forall k :: k in KeysOf(items) ==> ContainsKey(json, k) == Some(true)
    decreases |items|
  {
    if |items| > 0 {
      KeepsTopLevelAll(json, items[1..]);
      assert KeysOf(items) == {items[0].0} + KeysOf(items[1..]) by {
        assert forall i :: 0 < i < |items| ==> items[i].0 == items[1..][i - 1].0;
        assert forall i :: 0 <= i < |items| - 1 ==> items[1..][i].0 == items[i + 1].0;
      }
    }
  }

  /** Whatever object the settings end up as, every default key is in it. */
  lemma LoadedObjectHasDefaults(file: ConfigFile, defaults: seq<(string, Value)>)
    requires LoadConfig(file, defaults).config.Obj?
    ensures forall i :: 0 <= i < |defaults| ==> defaults[i].0 in LoadConfig(file, defaults).config.fields
  {
    assert forall i :: 0 <= i < |defaults| ==> defaults[i].0 in KeysOf(defaults);
  }

  /** The helper as constructed: the settings `load_config` returns for the built-in defaults. */
  function Start(file: ConfigFile): (r: Loaded)
    ensures file.Absent? ==> r.written == Some(r.config)
  {
    LoadConfig(file, DefaultItems)
  }

  // ---------------------------------------------------------------------------
  // get, set, update, save_config
  // ---------------------------------------------------------------------------

  /** `get(key, default)`: the stored value, or `default` when the key is absent. */
  function Get(m: Manager, key: string, default: Value): (r: Value)
    requires m.config.Obj?
    ensures key in m.config.fields ==> r == m.config.fields[key]
    ensures key !in m.config.fields ==> r == default
  {
    if key in m.config.fields then m.config.fields[key] else default
  }

  /** What a save reports: the helper afterwards, and whether the write went through. */
  datatype Saved = Saved(manager: Manager, ok: bool)

  /**
   * `save_config(config)`: writes `config`, or the held settings when none
   * is given; only a successful write makes the written settings the held ones.
   */
  function SaveConfig(m: Manager, config: Option<Value>, written: bool): (r: Saved)
    ensures r.ok == written
    ensures written ==> r.manager.config == config.GetOr(m.config)
    ensures !written ==> r.manager == m
  {
    if written then Saved(Manager(config.GetOr(m.config)), true) else Saved(m, false)
  }

  /** `set(key, value)`: the assignment happens in memory before the save, so it stays even if the save fails. */
  function Set(m: Manager, key: string, value: Value, written: bool): (r: Saved)
    requires m.config.Obj?
    ensures r.ok == written
    ensures r.manager.config.Obj?
    ensures r.manager.config.fields.Keys == m.config.fields.Keys + {key}
    ensures r.manager.config.fields[key] == value
    ensures forall k :: k in m.config.fields && k != key ==> r.manager.config.fields[k] == m.config.fields[k]
  {
    SaveConfig(Manager(Obj(m.config.fields[key := value])), None, written)
  }

  /** `update(updates)`: keys of `updates` take its values, in memory first, then the save. */
  function Update(m: Manager, updates: map<string, Value>, written: bool): (r: Saved)
    requires m.config.Obj?
    ensures r.ok == written
    ensures r.manager.config.Obj?
    ensures r.manager.config.fields.Keys == m.config.fields.Keys + updates.Keys
    ensures forall k :: k in updates ==> r.manager.config.fields[k] == updates[k]
    ensures forall k :: k in m.config.fields && k !in updates ==> r.manager.config.fields[k] == m.config.fields[k]
  {
    SaveConfig(Manager(Obj(m.config.fields + updates)), None, written)
  }

  // ---------------------------------------------------------------------------
  // Properties across calls.
  // ---------------------------------------------------------------------------

  /** After `set(key, value)`, `get(key, _)` returns `value` and every other key reads as before. */
  lemma GetAfterSet(m: Manager, key: string, value: Value, written: bool, other: string, default: Value)
    requires m.config.Obj?
    ensures var m' := Set(m, key, value, written).manager;
            && Get(m', key, default) == value
            && (other != key ==> Get(m', other, default) == Get(m, other, default))
  {
  }

  /** After `update(u)`, `get` reads `u`'s value for its keys and the old value for the rest. */
  lemma GetAfterUpdate(m: Manager, updates: map<string, Value>, written: bool, key: string, default: Value)
    requires m.config.Obj?
    ensures var m' := Update(m, updates, written).manager;
            Get(m', key, default) == if key in updates then updates[key] else Get(m, key, default)
  {
  }

  /** An update with one key is a set of that key. */
  lemma UpdateOneIsSet(m: Manager, key: string, value: Value, written: bool)
    requires m.config.Obj?
    ensures Update(m, map[key := value], written) == Set(m, key, value, written)
  {
    assert m.config.fields + map[key := value] == m.config.fields[key := value];
  }

  /** Reading back the defaults a first start wrote gives the same settings again. */
  lemma FirstStartRoundTrip(defaults: seq<(string, Value)>)
    ensures var first := LoadConfig(Absent, defaults);
            && first.written.Some?
            && LoadConfig(Parsed(first.written.value), defaults).config == first.config
  {
    var d := ItemsMap(defaults);
    assert d + d == d;
  }

  /** Saving loaded settings and loading them again gives the same settings. */
  lemma SaveLoadStable(file: ConfigFile, defaults: seq<(string, Value)>)
    requires LoadConfig(file, defaults).config.Obj?
    ensures var m := Manager(LoadConfig(file, defaults).config);
            var saved := SaveConfig(m, None, true);
            LoadConfig(Parsed(saved.manager.config), defaults).config == m.config
  {
    var fields := LoadConfig(file, defaults).config.fields;
    assert KeysOf(defaults) <= fields.Keys;
    MergeIsUnion(fields, defaults);
    assert ItemsMap(defaults) + fields == fields;
  }
}
