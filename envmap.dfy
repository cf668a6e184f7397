/** The key store of the decoder (`envMap` in unmarshal.go). It is built from `KEY=VALUE`
    entries that start with a prefix and holds them with the prefix removed. `data` keeps every
    key, `left` the keys not yet consumed, and `found` the keys that `Get` has consumed, with the
    values it returned. */
module EnvStore {
  import opened Wrappers
  import opened Text

  /** The key an entry contributes to the store: the text before its first `=`, without the
      prefix, when that text starts with the prefix. Entries with no `=` and keys without the
      prefix contribute nothing. */
  function EnvKey(e: string, pfx: string): (r: Option<string>)
    ensures r.Some? <==> '=' in e && HasPrefix(SplitAtEquals(e).value.0, pfx)
    ensures r.Some? ==> pfx + r.value == SplitAtEquals(e).value.0
  {
    match SplitAtEquals(e)
    case None => None
    case Some(kv) => if HasPrefix(kv.0, pfx) then Some(TrimPrefix(kv.0, pfx)) else None
  }

  /** The value an entry contributes: the text after its first `=`. */
  function EnvValue(e: string): string
    requires '=' in e
  {
    SplitAtEquals(e).value.1
  }

  /** The contents newEnvMap builds from env: the entries in order, a later one replacing an
      earlier one with the same key. */
  function ParseEnv(env: seq<string>, pfx: string): (m: map<string, string>)
    ensures forall k :: k in m <==> exists i :: 0 <= i < |env| && EnvKey(env[i], pfx) == Some(k)
  {
    if env == [] then map[]
    else
      var init := env[..|env| - 1];
      var e := env[|env| - 1];
      var m := ParseEnv(init, pfx);
      assert forall i :: 0 <= i < |init| ==> init[i] == env[i];
      match EnvKey(e, pfx)
      case None => m
      case Some(k) => m[k := EnvValue(e)]
  }

  /** The value of a key is taken from the last entry that has it. */
  lemma {:induction false} ParseEnvLastWins(env: seq<string>, pfx: string, i: nat)
    requires i < |env| && EnvKey(env[i], pfx).Some?
    requires forall j :: i < j < |env| ==> EnvKey(env[j], pfx) != EnvKey(env[i], pfx)
    ensures EnvKey(env[i], pfx).value in ParseEnv(env, pfx)
    ensures ParseEnv(env, pfx)[EnvKey(env[i], pfx).value] == EnvValue(env[i])
    decreases |env|
  {
    if i < |env| - 1 {
      var init := env[..|env| - 1];
      assert init[i] == env[i];
      forall j | i < j < |init| ensures EnvKey(init[j], pfx) != EnvKey(init[i], pfx) {
        assert init[j] == env[j];
      }
      ParseEnvLastWins(init, pfx, i);
    }
  }

  /** One more entry read: the contents so far, updated by that entry's key if it has one. */
  lemma ParseEnvStep(env: seq<string>, pfx: string, i: nat)
    requires i < |env|
    ensures ParseEnv(env[..i + 1], pfx) ==
      match EnvKey(env[i], pfx)
      case None => ParseEnv(env[..i], pfx)
      case Some(k) => ParseEnv(env[..i], pfx)[k := EnvValue(env[i])]
  {
    TakeStep(env, i);
  }

  class EnvMap {
    var data: map<string, string>
    var left: map<string, string>
    var found: map<string, string>
    const pfx: string

    /** `left` is what remains of `data`; a key is either left or found, never both, and every key
        of `data` is in one of them. `found` may also hold keys that were never present. */
    ghost predicate Valid()
      reads this
    {
      (forall k :: k in left ==> k in data && left[k] == data[k]) &&
      left.Keys !! found.Keys &&
      data.Keys <= left.Keys + found.Keys
    }

    /** newEnvMap(env, pfx). */
    constructor (env: seq<string>, pfx: string)
      ensures this.pfx == pfx
      ensures data == ParseEnv(env, pfx) && left == data && found == map[]
      ensures Valid()
    {
      this.pfx := pfx;
      data := map[];
      left := map[];
      found := map[];
      new;
      var i := 0;
      while i < |env|
        invariant 0 <= i <= |env|
        invariant data == ParseEnv(env[..i], pfx) && left == data && found == map[]
      {
        var e := env[i];
        ParseEnvStep(env, pfx, i);
        match SplitAtEquals(e) {
          case None =>
          case Some(kv) =>
            if HasPrefix(kv.0, pfx) {
              var key := TrimPrefix(kv.0, pfx);
              data := data[key := kv.1];
              left := left[key := kv.1];
            }
        }
        i := i + 1;
      }
      TakeAll(env, i);
    }

    /** Get consumes a key: it returns the remaining value, or "" when the key is not left (never
        present, or consumed already), records that value in `found` and removes the key from
        `left`. */
    method Get(key: string) returns (r: string)
      requires Valid()
      modifies this
      ensures Valid()
      ensures r == (if key in old(left) then old(left)[key] else "")
      ensures left == old(left) - {key}
      ensures found == old(found)[key := r]
      ensures data == old(data)
    {
      r := if key in left then left[key] else "";
      found := found[key := r];
      left := left - {key};
    }

    /** Keys: the keys still left, in strictly ascending order. The source collects them and then
        sorts them; here each key is inserted into the sorted list as it is collected, which
        yields the same list (Text.SortedUnique). */
    method Keys() returns (ks: seq<string>)
      ensures StrictlySorted(ks)
      ensures forall k :: k in ks <==> k in left
      ensures |ks| == |left|
      ensures ks == SortedKeys(left.Keys)
    {
      ks := [];
      var rest := left.Keys;
      while rest != {}
        invariant rest <= left.Keys
        invariant StrictlySorted(ks)
        invariant forall k :: k in ks <==> k in left && k !in rest
        invariant |ks| + |rest| == |left|
        decreases rest
      {
        var k :| k in rest;
        ks := InsertSorted(ks, k);
        rest := rest - {k};
      }
      SortedUnique(ks, SortedKeys(left.Keys));
    }

    /** HasKeyPfx: whether some key still left starts with p. */
    method HasKeyPfx(p: string) returns (b: bool)
      ensures b <==> exists k :: k in left && HasPrefix(k, p)
    {
      var rest := left.Keys;
      while rest != {}
        invariant rest <= left.Keys
        invariant forall k :: k in left && k !in rest ==> !HasPrefix(k, p)
        decreases rest
      {
        var k :| k in rest;
        if HasPrefix(k, p) {
          return true;
        }
        rest := rest - {k};
      }
      return false;
    }

    /** HasKey: whether the key is still left. */
    method HasKey(key: string) returns (b: bool)
      ensures b <==> key in left
    {
      b := key in left;
    }

    /** The variables UnsetEnv would remove from the process environment: every consumed key with
        the prefix put back. */
    function UnsetKeys(): (r: set<string>)
      reads this
      ensures forall k :: k in found <==> pfx + k in r
      ensures forall x :: x in r ==> pfx <= x
    {
      var r := set k | k in found :: pfx + k;
      assert forall k :: pfx + k in r ==> k in found by {
        forall k | pfx + k in r ensures k in found {
          var k' :| k' in found && pfx + k' == pfx + k;
          assert k' == (pfx + k')[|pfx|..] == (pfx + k)[|pfx|..] == k;
        }
      }
      r
    }
  }
}
