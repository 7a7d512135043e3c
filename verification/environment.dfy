/**
 * The environment a terminal program is launched with: the current process
 * environment, overlaid with `KEY=VALUE` strings split at their first `=`.
 * A later entry for the same key wins; an entry without `=` is skipped.
 */
module Environment {
  import opened Options

  type EnvMap = map<string, string>

  /** wxString::Find(char): the index of the first occurrence, or not found. */
  function FindChar(s: string, c: char): (r: Option<nat>)
    ensures r.None? <==> c !in s
    ensures r.Some? ==> r.value < |s| && s[r.value] == c && c !in s[..r.value]
    decreases |s|
  {
    if s == [] then None
    else if s[0] == c then Some(0)
    else
      match FindChar(s[1..], c)
      case None => None
      case Some(i) =>
        assert s[..i + 1] == [s[0]] + s[1..][..i];
        Some(i + 1)
  }

  /**
   * One entry split at its first `=`: the key before it and the value after
   * it (either may be empty), or nothing when the entry has no `=`.
   */
  function SplitEntry(entry: string): (r: Option<(string, string)>)
    ensures r.None? <==> '=' !in entry
    ensures r.Some? ==> entry == r.value.0 + "=" + r.value.1 && '=' !in r.value.0
  {
    match FindChar(entry, '=')
    case None => None
    case Some(pos) =>
      assert entry == entry[..pos] + "=" + entry[pos + 1..];
      Some((entry[..pos], entry[pos + 1..]))
  }

  /** Joining a key without `=` and any value, then splitting, gives them back. */
  lemma SplitJoin(key: string, value: string)
    requires '=' !in key
    ensures SplitEntry(key + "=" + value) == Some((key, value))
  {
    var entry := key + "=" + value;
    assert entry[|key|] == '=';
    var r := SplitEntry(entry);
    assert r.Some?;
    var k := r.value.0;
    assert k == entry[..|key|] == key;
    assert r.value.1 == entry[|key| + 1..] == value;
  }

  /** Whether an entry assigns `key`. */
  predicate Sets(entry: string, key: string) {
    SplitEntry(entry).Some? && SplitEntry(entry).value.0 == key
  }

  /** One step of the overlay: `env[key] = value` for an entry with `=`. */
  function Apply(env: EnvMap, entry: string): (r: EnvMap)
    ensures '=' !in entry ==> r == env
  {
    match SplitEntry(entry)
    case None => env
    case Some((key, value)) => env[key := value]
  }

  /** The entries applied in order, first to last. */
  function Overlay(env: EnvMap, entries: seq<string>): (r: EnvMap)
    ensures entries == [] ==> r == env
    ensures r.Keys >= env.Keys
    decreases |entries|
  {
    if entries == [] then env else Overlay(Apply(env, entries[0]), entries[1..])
  }

  /** A key that no entry sets keeps its value from the base environment, or stays absent. */
  lemma {:induction false} OverlayKeepsUnset(env: EnvMap, entries: seq<string>, key: string)
    requires forall j :: 0 <= j < |entries| ==> !Sets(entries[j], key)
    ensures key in Overlay(env, entries) <==> key in env
    ensures key in env ==> Overlay(env, entries)[key] == env[key]
    decreases |entries|
  {
    if entries != [] {
      assert !Sets(entries[0], key);
      var env1 := Apply(env, entries[0]);
      assert (key in env1 <==> key in env) && (key in env ==> env1[key] == env[key]);
      forall j | 0 <= j < |entries[1..]|
        ensures !Sets(entries[1..][j], key)
      {
        assert entries[1..][j] == entries[j + 1];
      }
      OverlayKeepsUnset(env1, entries[1..], key);
    }
  }

  /** The last entry that sets a key decides its value: later duplicates win. */
  lemma {:induction false} OverlayLastWins(env: EnvMap, entries: seq<string>, key: string, i: int)
    requires 0 <= i < |entries| && Sets(entries[i], key)
    requires forall j :: i < j < |entries| ==> !Sets(entries[j], key)
    ensures key in Overlay(env, entries)
    ensures Overlay(env, entries)[key] == SplitEntry(entries[i]).value.1
    decreases |entries|
  {
    var env1 := Apply(env, entries[0]);
    var rest := entries[1..];
    if i == 0 {
      assert key in env1 && env1[key] == SplitEntry(entries[0]).value.1;
      forall j | 0 <= j < |rest|
        ensures !Sets(rest[j], key)
      {
        assert rest[j] == entries[j + 1];
      }
      OverlayKeepsUnset(env1, rest, key);
    } else {
      assert rest[i - 1] == entries[i];
      forall j | i - 1 < j < |rest|
        ensures !Sets(rest[j], key)
      {
        assert rest[j] == entries[j + 1];
      }
      OverlayLastWins(env1, rest, key, i - 1);
    }
  }

  /**
   * The loop in RunProgram that fills the launch environment: start from
   * the current process environment and apply each entry in turn.
   */
  method BuildEnvironment(base: EnvMap, entries: seq<string>) returns (env: EnvMap)
    ensures env == Overlay(base, entries)
  {
    env := base;
    var i := 0;
    while i < |entries|
      invariant 0 <= i <= |entries|
      invariant Overlay(env, entries[i..]) == Overlay(base, entries)
    {
      var envStr := entries[i];
      var pos := FindChar(envStr, '=');
      if pos.Some? {
        var key := envStr[..pos.value];
        var value := envStr[pos.value + 1..];
        env := env[key := value];
      }
      assert entries[i..][1..] == entries[i + 1..];
      i := i + 1;
    }
    assert entries[i..] == [];
  }
}
