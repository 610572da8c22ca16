/** The settings of config_manager.py: a JSON tree of nested dictionaries
    with defaults, merged with the user's file on load, read and written
    through dot-separated paths. */
module Config {
  import opened Wrappers
  import opened Strings

  /** A JSON value as `json.load` returns it (numbers are integers here). */
  datatype Json =
    | Null
    | Bool(b: bool)
    | Num(n: int)
    | Str(s: string)
    | Arr(items: seq<Json>)
    | Obj(fields: map<string, Json>)

  /** `get_default_config` */
  function DefaultConfig(): (c: Json)
    ensures c.Obj? && c.fields.Keys == {"hotkeys", "ui", "tray", "update"}
  {
    Obj(map[
      "hotkeys" := Obj(map[
        "toggle_window" := Str("ctrl+shift+a"),
        "add_account" := Str("ctrl+shift+n")]),
      "ui" := Obj(map[
        "window_position" := Str("right"),
        "margin" := Num(20),
        "always_on_top" := Bool(false),
        "custom_x" := Num(100),
        "custom_y" := Num(100)]),
      "tray" := Obj(map[
        "enabled" := Bool(true),
        "hide_on_close" := Bool(true),
        "tooltip" := Str("Python Authenticator")]),
      "update" := Obj(map[
        "auto_refresh" := Bool(true),
        "refresh_interval" := Num(1),
        "show_progress_bar" := Bool(true)])])
  }

  /** The value `merge_config` leaves at a key of `d`: the user's value
      replaces the default one wholesale, unless both are dictionaries, in
      which case they are merged in turn. */
  function MergedAt(d: map<string, Json>, u: map<string, Json>, k: string): Json
    requires k in d
    decreases Obj(u), 0
  {
    if k !in u then d[k]
    else if u[k].Obj? && d[k].Obj? then Obj(Merged(d[k].fields, u[k].fields))
    else u[k]
  }

  /** `merge_config(default, user)`, as the dictionary `default` ends up as:
      exactly the default keys, each with its merged value. */
  function Merged(d: map<string, Json>, u: map<string, Json>): (m: map<string, Json>)
    ensures m.Keys == d.Keys
    decreases Obj(u), 1
  {
    map k | k in d :: MergedAt(d, u, k)
  }

  /** Keys the user sets that the defaults lack are dropped, keys the user
      does not set keep their default, and a default dictionary survives
      exactly when the user's value there is absent or a dictionary too. */
  lemma MergedKeepsDefaults(d: map<string, Json>, u: map<string, Json>, k: string)
    ensures k in Merged(d, u) <==> k in d
    ensures k in d && k !in u ==> Merged(d, u)[k] == d[k]
    ensures k in d && k in u && !(u[k].Obj? && d[k].Obj?) ==> Merged(d, u)[k] == u[k]
    ensures k in d && d[k].Obj? ==> (Merged(d, u)[k].Obj? <==> k !in u || u[k].Obj?)
  {
  }

  /** Merging a dictionary into itself changes nothing. */
  lemma {:induction false} MergedSelf(d: map<string, Json>)
    ensures Merged(d, d) == d
    decreases Obj(d)
  {
    forall k | k in d ensures MergedAt(d, d, k) == d[k] {
      if d[k].Obj? {
        MergedSelf(d[k].fields);
      }
    }
  }

  /** Merging nothing changes nothing. */
  lemma MergedEmpty(d: map<string, Json>)
    ensures Merged(d, map[]) == d
  {
  }

  /** Loading an already loaded configuration again gives it back: merging is
      idempotent. */
  lemma {:induction false} MergedIdempotent(d: map<string, Json>, u: map<string, Json>)
    ensures Merged(d, Merged(d, u)) == Merged(d, u)
    decreases Obj(u)
  {
    var m := Merged(d, u);
    forall k | k in d ensures MergedAt(d, m, k) == m[k] {
      assert m[k] == MergedAt(d, u, k);
      if k in u && u[k].Obj? && d[k].Obj? {
        MergedIdempotent(d[k].fields, u[k].fields);
        assert m[k] == Obj(Merged(d[k].fields, u[k].fields));
      } else if k !in u && d[k].Obj? {
        MergedSelf(d[k].fields);
        assert m[k] == d[k];
      }
    }
  }

  /** `merge_config`: walks the user's keys one at a time, recursing where
      both sides hold dictionaries. */
  method MergeConfig(default: map<string, Json>, user: map<string, Json>) returns (merged: map<string, Json>)
    ensures merged == Merged(default, user)
    decreases Obj(user)
  {
    merged := default;
    var pending := user.Keys;
    while pending != {}
      invariant pending <= user.Keys
      invariant merged.Keys == default.Keys
      invariant forall k | k in default ::
                  merged[k] == if k in user && k !in pending then MergedAt(default, user, k) else default[k]
      decreases pending
    {
      var key :| key in pending;
      var value := user[key];
      if key in default {
        if value.Obj? && default[key].Obj? {
          var inner := MergeConfig(default[key].fields, value.fields);
          merged := merged[key := Obj(inner)];
        } else {
          merged := merged[key := value];
        }
      }
      pending := pending - {key};
    }
  }

  /** What config.json holds when the configuration is loaded. */
  datatype ConfigFile = Absent | Unreadable | Parsed(content: Json)

  /** `load_config`: the defaults when there is no file, when it cannot be
      read or parsed, or when it is not a dictionary (merging it raises);
      otherwise the user's settings merged into the defaults. */
  function LoadConfig(file: ConfigFile): (c: Json)
    ensures c.Obj? && c.fields.Keys == DefaultConfig().fields.Keys
    ensures !(file.Parsed? && file.content.Obj?) ==> c == DefaultConfig()
  {
    match file
    case Parsed(Obj(user)) => Obj(Merged(DefaultConfig().fields, user))
    case _ => DefaultConfig()
  }

  /** Loading the configuration the program itself saved gives it back. */
  lemma LoadSaved(file: ConfigFile)
    ensures LoadConfig(Parsed(LoadConfig(file))) == LoadConfig(file)
  {
    match file
    case Parsed(Obj(user)) => MergedIdempotent(DefaultConfig().fields, user);
    case _ => MergedSelf(DefaultConfig().fields);
  }

  /** The value at a path of keys, or `None` when a key is missing or a value
      on the way is not a dictionary (the `KeyError` and `TypeError` that
      `get` catches). */
  function Lookup(j: Json, keys: seq<string>): Option<Json>
    decreases |keys|
  {
    if keys == [] then Some(j)
    else if j.Obj? && keys[0] in j.fields then Lookup(j.fields[keys[0]], keys[1..])
    else None
  }

  /** The dictionary `set` descends into at a key: the existing value, or a
      fresh empty dictionary when the key is missing. */
  function Child(m: map<string, Json>, key: string): Json {
    if key in m then m[key] else Obj(map[])
  }

  /** `set`, as a value: the tree with `v` stored at the path, creating
      missing dictionaries on the way, or `None` when an existing value on
      the way is not a dictionary. */
  function Put(j: Json, keys: seq<string>, v: Json): (r: Option<Json>)
    requires keys != []
    ensures r.Some? ==> r.value.Obj? && j.Obj? && r.value.fields.Keys == j.fields.Keys + {keys[0]}
    decreases |keys|
  {
    if !j.Obj? then None
    else if |keys| == 1 then Some(Obj(j.fields[keys[0] := v]))
    else
      match Put(Child(j.fields, keys[0]), keys[1..], v)
      case None => None
      case Some(c) => Some(Obj(j.fields[keys[0] := c]))
  }

  /** A fresh dictionary always accepts a path. */
  lemma {:induction false} PutIntoEmpty(keys: seq<string>, v: Json)
    requires keys != []
    ensures Put(Obj(map[]), keys, v).Some?
    decreases |keys|
  {
    if |keys| > 1 {
      PutIntoEmpty(keys[1..], v);
    }
  }

  /** `set` fails exactly when some existing value strictly above the path's
      end is not a dictionary. */
  lemma {:induction false} PutFails(j: Json, keys: seq<string>, v: Json)
    requires keys != []
    ensures Put(j, keys, v).None? <==>
            exists i | 0 <= i < |keys| :: Lookup(j, keys[..i]).Some? && !Lookup(j, keys[..i]).value.Obj?
    decreases |keys|
  {
    assert keys[..0] == [];
    if j.Obj? && |keys| > 1 {
      var k := keys[0];
      if k in j.fields {
        PutFails(j.fields[k], keys[1..], v);
        forall i | 1 <= i < |keys| ensures Lookup(j, keys[..i]) == Lookup(j.fields[k], keys[1..][..i - 1]) {
          assert keys[..i][1..] == keys[1..][..i - 1];
        }
        if exists i | 0 <= i < |keys[1..]| :: Lookup(j.fields[k], keys[1..][..i]).Some? && !Lookup(j.fields[k], keys[1..][..i]).value.Obj? {
          var i :| 0 <= i < |keys[1..]| && Lookup(j.fields[k], keys[1..][..i]).Some? && !Lookup(j.fields[k], keys[1..][..i]).value.Obj?;
          assert Lookup(j, keys[..i + 1]) == Lookup(j.fields[k], keys[1..][..i]);
        }
      } else {
        PutIntoEmpty(keys[1..], v);
        forall i | 1 <= i < |keys| ensures Lookup(j, keys[..i]).None? {
          assert keys[..i][0] == k;
        }
      }
    }
  }

  /** After a successful `set`, `get` of the same path returns the value. */
  lemma {:induction false} GetAfterSet(j: Json, keys: seq<string>, v: Json)
    requires keys != [] && Put(j, keys, v).Some?
    ensures Lookup(Put(j, keys, v).value, keys) == Some(v)
    decreases |keys|
  {
    if |keys| > 1 {
      GetAfterSet(Child(j.fields, keys[0]), keys[1..], v);
    }
  }

  /** Paths with the same first key are prefixes of each other exactly when
      their remainders are. */
  lemma PrefixTail(a: seq<string>, b: seq<string>)
    requires a != [] && b != [] && a[0] == b[0]
    ensures a <= b <==> a[1..] <= b[1..]
  {
    assert a == [a[0]] + a[1..] && b == [b[0]] + b[1..];
  }

  /** One step of `set` from a suffix of the path: descend at key `i`, or
      store the value when it is the last key. */
  lemma PutStep(m: map<string, Json>, keys: seq<string>, i: nat, v: Json)
    requires i < |keys|
    ensures i == |keys| - 1 ==> Put(Obj(m), keys[i..], v) == Some(Obj(m[keys[i] := v]))
    ensures i < |keys| - 1 ==>
              Put(Obj(m), keys[i..], v) ==
                (match Put(Child(m, keys[i]), keys[i + 1..], v)
                 case None => None
                 case Some(c) => Some(Obj(m[keys[i] := c])))
  {
    assert keys[i..][0] == keys[i];
    assert keys[i..][1..] == keys[i + 1..];
  }

  /** A successful `set` leaves the value at every path unrelated to its own
      (neither path a prefix of the other) as it was. */
  lemma {:induction false} SetFrame(j: Json, keys: seq<string>, v: Json, other: seq<string>)
    requires keys != [] && Put(j, keys, v).Some?
    requires !(keys <= other) && !(other <= keys)
    ensures Lookup(Put(j, keys, v).value, other) == Lookup(j, other)
    decreases |keys|
  {
    var k := keys[0];
    if other[0] == k {
      assert |keys| > 1;
      var child := Child(j.fields, k);
      PrefixTail(keys, other);
      PrefixTail(other, keys);
      SetFrame(child, keys[1..], v, other[1..]);
      if k !in j.fields {
        assert other[1..] != [];
      }
    }
  }

  /** The path `get` and `set` use: the text split at every `.`. */
  function Path(path: string): (keys: seq<string>)
    ensures keys != []
  {
    Split(path, '.')
  }

  /** `get(path, default)`, as a value. */
  function GetOr(j: Json, path: string, default: Json): Json {
    match Lookup(j, Path(path))
    case Some(v) => v
    case None => default
  }

  /** A two-key path. */
  lemma PathOfTwo(a: string, b: string)
    requires '.' !in a && '.' !in b
    ensures Path(a + "." + b) == [a, b]
  {
    SplitJoin([a, b], '.');
    assert Join([a, b], '.') == a + "." + b;
  }

  /** `get` of a two-key path looks the two keys up in turn. */
  lemma GetTwoKeys(j: Json, a: string, b: string, default: Json)
    requires '.' !in a && '.' !in b
    ensures GetOr(j, a + "." + b, default)
         == if j.Obj? && a in j.fields && j.fields[a].Obj? && b in j.fields[a].fields
            then j.fields[a].fields[b] else default
  {
    PathOfTwo(a, b);
    assert [a, b][0] == a && [a, b][1..] == [b] && [b][0] == b && [b][1..] == [];
    if j.Obj? && a in j.fields {
      var x := j.fields[a];
      assert Lookup(j, [a, b]) == Lookup(x, [b]);
      if x.Obj? && b in x.fields {
        assert Lookup(x, [b]) == Lookup(x.fields[b], []);
      } else {
        assert Lookup(x, [b]).None?;
      }
    } else {
      assert Lookup(j, [a, b]).None?;
    }
  }

  /** The first example of the `get` documentation. */
  lemma GetToggleWindowExample()
    ensures GetOr(DefaultConfig(), "hotkeys.toggle_window", Null) == Str("ctrl+shift+a")
  {
    var hotkeys := DefaultConfig().fields["hotkeys"];
    assert hotkeys.fields["toggle_window"] == Str("ctrl+shift+a");
    GetTwoKeys(DefaultConfig(), "hotkeys", "toggle_window", Null);
    assert "hotkeys" + "." + "toggle_window" == "hotkeys.toggle_window";
  }

  /** The second example of the `get` documentation. */
  lemma GetMarginExample()
    ensures GetOr(DefaultConfig(), "ui.margin", Null) == Num(20)
  {
    GetTwoKeys(DefaultConfig(), "ui", "margin", Null);
    assert "ui" + "." + "margin" == "ui.margin";
  }

  /** The third example of the `get` documentation: a missing key gives the
      caller's default. */
  lemma GetFallbackExample()
    ensures GetOr(DefaultConfig(), "nonexistent.key", Str("fallback")) == Str("fallback")
  {
    GetTwoKeys(DefaultConfig(), "nonexistent", "key", Str("fallback"));
    assert "nonexistent" + "." + "key" == "nonexistent.key";
  }

  /** The settings object: `self.config`, always a dictionary. */
  class ConfigManager {
    var config: Json

    predicate Valid()
      reads this
    {
      config.Obj?
    }

    /** `__init__`: load the settings from what config.json holds. */
    constructor(file: ConfigFile)
      ensures Valid() && config == LoadConfig(file)
    {
      config := LoadConfig(file);
    }

    /** `get`: walk the path one key at a time; the default when a key is
        missing or a value on the way is not a dictionary. */
    method Get(path: string, default: Json) returns (result: Json)
      ensures result == GetOr(config, path, default)
    {
      var keys := Path(path);
      var value := config;
      var i := 0;
      while i < |keys|
        invariant 0 <= i <= |keys|
        invariant Lookup(config, keys) == Lookup(value, keys[i..])
      {
        if !(value.Obj? && keys[i] in value.fields) {
          return default;
        }
        value := value.fields[keys[i]];
        i := i + 1;
      }
      return value;
    }

    /** `set`: descend through the path, creating missing dictionaries, and
        store the value at its end; when an existing value on the way is
        not a dictionary the call fails (a `TypeError` in the source) and
        nothing has changed. Saving the file afterwards is not modelled. */
    method Set(path: string, value: Json) returns (ok: bool)
      requires Valid()
      modifies this
      ensures Valid()
      ensures ok <==> Put(old(config), Path(path), value).Some?
      ensures ok ==> config == Put(old(config), Path(path), value).value
      ensures !ok ==> config == old(config)
    {
      var keys := Path(path);
      var n := |keys|;
      // Walk down: trail[i] is the dictionary reached after i keys.
      var trail: seq<map<string, Json>> := [config.fields];
      var i := 0;
      while i < n - 1
        invariant config == old(config)
        invariant 0 <= i <= n - 1 && |trail| == i + 1
        invariant trail[0] == config.fields
        invariant forall t | 0 <= t < i :: Child(trail[t], keys[t]) == Obj(trail[t + 1])
        invariant Put(config, keys, value).None? <==> Put(Obj(trail[i]), keys[i..], value).None?
      {
        var next := Child(trail[i], keys[i]);
        PutStep(trail[i], keys, i, value);
        if !next.Obj? {
          return false;
        }
        trail := trail + [next.fields];
        i := i + 1;
      }
      // Write back: acc is the new dictionary at depth i.
      var acc := Obj(trail[i][keys[i] := value]);
      PutStep(trail[i], keys, i, value);
      while i > 0
        invariant config == old(config)
        invariant 0 <= i <= n - 1 && |trail| == n
        invariant trail[0] == config.fields
        invariant forall t | 0 <= t < n - 1 :: Child(trail[t], keys[t]) == Obj(trail[t + 1])
        invariant Put(Obj(trail[i]), keys[i..], value) == Some(acc)
        decreases i
      {
        i := i - 1;
        PutStep(trail[i], keys, i, value);
        acc := Obj(trail[i][keys[i] := acc]);
      }
      assert keys[0..] == keys;
      config := acc;
      return true;
    }
  }
}
