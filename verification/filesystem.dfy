/**
 * The filesystem operations over one object-store bucket. The bucket is an
 * in-memory map from keys to bodies; every operation is what the filesystem
 * object does with the store's get, put, copy, delete, head and prefix-list
 * calls, done one after another.
 */
module FileSystem {
  import opened Common
  import opened Paths

  /** The store's "no such key" answer to a get or a head. */
  datatype FsError = NotFound

  /** What `stat` returns: only `isDirectory` is meaningful. */
  datatype Stats = Stats(isDirectory: bool)

  type Objects = map<string, Bytes>

  /** One object of a `rename`: copy `key` to `newName`, then delete `key`. */
  function Move(m: Objects, key: string, newName: string): (r: Objects)
    ensures key !in m ==> r == m
    ensures key in m && key != newName ==> key !in r && newName in r && r[newName] == m[key]
    ensures key in m && key == newName ==> key !in r
    ensures forall k :: k != key && k != newName ==> (k in r <==> k in m) && (k in r ==> r[k] == m[k])
  {
    if key in m then m[newName := m[key]] - {key} else m
  }

  /** The bucket after each listed key, in listing order, is moved to the name `newName` gives it. */
  function MoveAll(m: Objects, keys: seq<string>, newName: string -> string): Objects
    decreases |keys|
  {
    if |keys| == 0 then m
    else
      var last := keys[|keys| - 1];
      Move(MoveAll(m, keys[..|keys| - 1], newName), last, newName(last))
  }

  /** The name `rename(p, pp)` gives a listed key: its first occurrence of `p` replaced by `pp`. */
  function NewName(p: string, pp: string): string -> string {
    k => ReplaceFirst(k, p, pp)
  }

  /** The bucket after `rename(p, pp)` has moved the listed keys. */
  function RenameAll(m: Objects, keys: seq<string>, p: string, pp: string): Objects {
    MoveAll(m, keys, NewName(p, pp))
  }

  /** Keys whose new names are the keys themselves are copied onto themselves and then deleted. */
  lemma {:induction false} MoveAllInPlaceDeletes(m: Objects, keys: seq<string>, newName: string -> string)
    requires forall k :: k in keys ==> newName(k) == k
    ensures MoveAll(m, keys, newName) == m - (set k | k in keys)
    decreases |keys|
  {
    if |keys| > 0 {
      var front, last := keys[..|keys| - 1], keys[|keys| - 1];
      assert forall k :: k in keys <==> k in front || k == last;
      MoveAllInPlaceDeletes(m, front, newName);
    }
  }

  /** `rename(p, p)` deletes every object it lists. */
  lemma RenameToSamePathDeletes(m: Objects, keys: seq<string>, p: string)
    ensures RenameAll(m, keys, p, p) == m - (set k | k in keys)
  {
    forall k | k in keys ensures NewName(p, p)(k) == k {
      ReplaceBySelf(k, p);
    }
    MoveAllInPlaceDeletes(m, keys, NewName(p, p));
  }

  /**
   * A path with a leading separator is listed by its key but replaced
   * unnormalised: the key `a/x` does not contain `/a`, keeps its name, and
   * `rename("/a", "/b")` deletes it.
   */
  lemma RenameLeadingSeparatorDeletes(body: Bytes)
    ensures RenameAll(map["a/x" := body], ["a/x"], "/a", "/b") == map[]
  {
    var key := "a/x";
    assert key[0..2][0] == 'a' && key[1..3][1] == 'x';
    assert !OccursAt(key, "/a", 0) && !OccursAt(key, "/a", 1);
    assert forall j :: 0 <= j <= |key| ==> !OccursAt(key, "/a", j);
    assert NewName("/a", "/b")(key) == key;
    MoveAllInPlaceDeletes(map[key := body], [key], NewName("/a", "/b"));
    assert (set k | k in [key]) == {key};
  }

  /** The new names of distinct listed keys are distinct and none of them is itself listed. */
  ghost predicate MovesApart(keys: seq<string>, newName: string -> string) {
    && NoDuplicates(keys)
    && (forall j, k :: j in keys && k in keys && j != k ==> newName(j) != newName(k))
    && (forall j, k :: j in keys && k in keys ==> newName(j) != k)
  }

  /** Dropping the last listed key keeps the new names apart. */
  lemma MovesApartFront(keys: seq<string>, newName: string -> string)
    requires |keys| > 0 && MovesApart(keys, newName)
    ensures MovesApart(keys[..|keys| - 1], newName)
    ensures keys[|keys| - 1] !in keys[..|keys| - 1]
  {
    var front := keys[..|keys| - 1];
    forall i, j | 0 <= i < j < |front| ensures front[i] != front[j] {
      assert front[i] == keys[i] && front[j] == keys[j];
    }
    forall i | 0 <= i < |front| ensures front[i] != keys[|keys| - 1] {
      assert front[i] == keys[i];
    }
    assert forall j :: j in front ==> j in keys;
  }

  /** An object whose key is neither listed nor a new name keeps its presence and body. */
  lemma {:induction false} MoveAllKeepsOthers(m: Objects, keys: seq<string>, newName: string -> string, k: string)
    requires k !in keys && forall j :: j in keys ==> newName(j) != k
    ensures k in MoveAll(m, keys, newName) <==> k in m
    ensures k in m ==> MoveAll(m, keys, newName)[k] == m[k]
    decreases |keys|
  {
    if |keys| > 0 {
      var front := keys[..|keys| - 1];
      assert forall j :: j in front ==> j in keys;
      MoveAllKeepsOthers(m, front, newName, k);
    }
  }

  /** Every key afterwards is an old unlisted key or the new name of a listed one. */
  lemma {:induction false} MoveAllOnlyNewNames(m: Objects, keys: seq<string>, newName: string -> string)
    ensures forall k :: k in MoveAll(m, keys, newName) ==>
                        (k in m && k !in keys) || (exists j :: j in keys && newName(j) == k)
    decreases |keys|
  {
    if |keys| > 0 {
      var front, last := keys[..|keys| - 1], keys[|keys| - 1];
      assert forall j :: j in keys <==> j in front || j == last;
      MoveAllOnlyNewNames(m, front, newName);
    }
  }

  /** With the new names kept apart, no listed key survives. */
  lemma {:induction false} MoveAllRemovesListed(m: Objects, keys: seq<string>, newName: string -> string)
    requires MovesApart(keys, newName)
    ensures forall k :: k in keys ==> k !in MoveAll(m, keys, newName)
    decreases |keys|
  {
    if |keys| > 0 {
      var front, last := keys[..|keys| - 1], keys[|keys| - 1];
      assert forall j :: j in keys <==> j in front || j == last;
      MovesApartFront(keys, newName);
      MoveAllRemovesListed(m, front, newName);
    }
  }

  /** With the new names kept apart, each listed object ends up under its new name with its old body. */
  lemma {:induction false} MoveAllCarriesBodies(m: Objects, keys: seq<string>, newName: string -> string)
    requires forall k :: k in keys ==> k in m
    requires MovesApart(keys, newName)
    ensures forall k :: k in keys ==> newName(k) in MoveAll(m, keys, newName) && MoveAll(m, keys, newName)[newName(k)] == m[k]
    decreases |keys|
  {
    if |keys| > 0 {
      var front, last := keys[..|keys| - 1], keys[|keys| - 1];
      assert forall j :: j in keys <==> j in front || j == last;
      MovesApartFront(keys, newName);
      MoveAllCarriesBodies(m, front, newName);
      MoveAllKeepsOthers(m, front, newName, last);
    }
  }

  /**
   * When the new names keep apart from each other and from the listed keys,
   * every listed object moves to its new name and every other object is
   * left alone.
   */
  lemma MoveAllMoves(m: Objects, keys: seq<string>, newName: string -> string)
    requires forall k :: k in keys ==> k in m
    requires MovesApart(keys, newName)
    ensures forall k :: k in keys ==> k !in MoveAll(m, keys, newName)
    ensures forall k :: k in keys ==> newName(k) in MoveAll(m, keys, newName) && MoveAll(m, keys, newName)[newName(k)] == m[k]
    ensures forall k :: k !in keys && (forall j :: j in keys ==> newName(j) != k) ==>
                        (k in MoveAll(m, keys, newName) <==> k in m) &&
                        (k in m ==> MoveAll(m, keys, newName)[k] == m[k])
    ensures forall k :: k in MoveAll(m, keys, newName) ==>
                        (k in m && k !in keys) || (exists j :: j in keys && newName(j) == k)
  {
    MoveAllRemovesListed(m, keys, newName);
    MoveAllCarriesBodies(m, keys, newName);
    forall k | k !in keys && (forall j :: j in keys ==> newName(j) != k)
      ensures k in MoveAll(m, keys, newName) <==> k in m
      ensures k in m ==> MoveAll(m, keys, newName)[k] == m[k]
    {
      MoveAllKeepsOthers(m, keys, newName, k);
    }
    MoveAllOnlyNewNames(m, keys, newName);
  }

  /** Two prefixes of the same string are prefixes of one another. */
  lemma PrefixesComparable(s: string, a: string, b: string)
    requires StartsWith(s, a) && StartsWith(s, b)
    ensures StartsWith(a, b) || StartsWith(b, a)
  {
    if |b| <= |a| {
      assert a[..|b|] == s[..|b|];
    } else {
      assert b[..|a|] == s[..|a|];
    }
  }

  /**
   * Prefixes are matched as text: the key `ab/x` of a sibling directory is
   * under the key of `a` and of `/a`, so `remove('a')` deletes it and
   * `rename('a', …)` lists it.
   */
  lemma SiblingKeyUnderPrefix()
    ensures StartsWith("ab/x", ToKey("a")) && StartsWith("ab/x", ToKey("/a"))
  {
    assert ToKey("/a") == "a";
  }

  /** `rename('a', 'c')` moves the sibling key `ab/x` to `cb/x`. */
  lemma RenameTakesSibling(body: Bytes)
    ensures RenameAll(map["ab/x" := body], ["ab/x"], "a", "c") == map["cb/x" := body]
  {
    var key := "ab/x";
    assert key[..1] == "a";
    ReplaceAtStart(key, "a", "c");
    assert "c" + key[1..] == "cb/x";
    assert NewName("a", "c")(key) == "cb/x";
    var m, keys := map[key := body], [key];
    assert keys[..0] == [] && keys[0] == key;
    assert MoveAll(m, keys[..0], NewName("a", "c")) == m;
    assert MoveAll(m, keys, NewName("a", "c")) == Move(m, key, "cb/x");
    assert Move(m, key, "cb/x") == map["cb/x" := body];
  }

  /**
   * `rename` normalises `p` only for the listing: the new key is built from
   * `p` and `pp` as given, so `rename('a', '/b')` moves `a/x` to `/b/x`,
   * which `readFile('/b/x')` does not reach, as it looks up `b/x`.
   */
  lemma RenameToRootedTarget(body: Bytes)
    ensures RenameAll(map["a/x" := body], ["a/x"], "a", "/b") == map["/b/x" := body]
    ensures ToKey("/b/x") !in RenameAll(map["a/x" := body], ["a/x"], "a", "/b")
  {
    var key := "a/x";
    assert key[..1] == "a";
    ReplaceAtStart(key, "a", "/b");
    assert "/b" + key[1..] == "/b/x";
    assert NewName("a", "/b")(key) == "/b/x";
    var m, keys := map[key := body], [key];
    assert keys[..0] == [] && keys[0] == key;
    assert MoveAll(m, keys[..0], NewName("a", "/b")) == m;
    assert MoveAll(m, keys, NewName("a", "/b")) == Move(m, key, "/b/x");
    assert Move(m, key, "/b/x") == map["/b/x" := body];
    assert ToKey("/b/x") == "b/x";
  }

  /** Under a prefix `p` not comparable with `pp`, each new name is `pp` followed by the key's remainder. */
  lemma NewNamesUnderPrefix(keys: seq<string>, p: string, pp: string)
    requires !StartsWith(p, pp) && !StartsWith(pp, p)
    requires NoDuplicates(keys)
    requires forall k :: k in keys ==> StartsWith(k, p)
    ensures forall k :: k in keys ==> |p| <= |k| && ReplaceFirst(k, p, pp) == pp + k[|p|..]
    ensures forall k :: k in keys ==> StartsWith(ReplaceFirst(k, p, pp), pp) && !StartsWith(ReplaceFirst(k, p, pp), p)
    ensures MovesApart(keys, NewName(p, pp))
  {
    forall k | k in keys
      ensures ReplaceFirst(k, p, pp) == pp + k[|p|..]
      ensures StartsWith(ReplaceFirst(k, p, pp), pp) && !StartsWith(ReplaceFirst(k, p, pp), p)
    {
      ReplaceAtStart(k, p, pp);
      assert (pp + k[|p|..])[..|pp|] == pp;
      if StartsWith(pp + k[|p|..], p) {
        PrefixesComparable(pp + k[|p|..], p, pp);
      }
    }
    forall j, k | j in keys && k in keys && j != k ensures ReplaceFirst(j, p, pp) != ReplaceFirst(k, p, pp) {
      assert j == p + j[|p|..] && k == p + k[|p|..];
      assert (pp + j[|p|..])[|pp|..] == j[|p|..] && (pp + k[|p|..])[|pp|..] == k[|p|..];
    }
  }

  /**
   * `rename(p, pp)` for a `p` without a leading separator and a `pp` not
   * comparable with it: every object that was under `p` is now under `pp`
   * with the same remainder and body, nothing remains under `p`, and objects
   * under neither are untouched.
   */
  lemma RenameUnderPrefix(m: Objects, keys: seq<string>, p: string, pp: string)
    requires ToKey(p) == p
    requires !StartsWith(p, pp) && !StartsWith(pp, p)
    requires NoDuplicates(keys)
    requires forall k :: k in keys <==> k in m && StartsWith(k, p)
    ensures forall k :: k in RenameAll(m, keys, p, pp) ==> !StartsWith(k, p)
    ensures forall k :: k in m && StartsWith(k, p) ==>
                        pp + k[|p|..] in RenameAll(m, keys, p, pp) && RenameAll(m, keys, p, pp)[pp + k[|p|..]] == m[k]
    ensures forall k :: k in m && !StartsWith(k, p) && !StartsWith(k, pp) ==>
                        k in RenameAll(m, keys, p, pp) && RenameAll(m, keys, p, pp)[k] == m[k]
  {
    NewNamesUnderPrefix(keys, p, pp);
    MoveAllMoves(m, keys, NewName(p, pp));
  }

  /** The bucket: the object store's contents, changed in place by the operations. */
  class Bucket {
    var objects: Objects

    constructor ()
      ensures objects == map[]
    {
      objects := map[];
    }

    /** The prefix listing: every key under `prefix`, once each, in the order the store gives them. */
    method ListPrefix(prefix: string) returns (keys: seq<string>)
      ensures NoDuplicates(keys)
      ensures forall k :: k in keys <==> k in objects && StartsWith(k, prefix)
    {
      keys := [];
      var rest := set k | k in objects && StartsWith(k, prefix);
      while rest != {}
        invariant forall k :: k in rest ==> k in objects && StartsWith(k, prefix)
        invariant forall k :: k in keys <==> k in objects && StartsWith(k, prefix) && k !in rest
        invariant NoDuplicates(keys)
        decreases rest
      {
        var k :| k in rest;
        keys := keys + [k];
        rest := rest - {k};
      }
    }

    /**
     * `readdir(p)`: the distinct first segments, after the key of `p`, of the
     * keys listed under it; keys with nothing but separators after it add nothing.
     */
    method Readdir(p: string) returns (names: seq<string>)
      ensures NoDuplicates(names)
      ensures forall n :: n in names ==> n != [] && SepFree(n)
      ensures forall n :: n in names <==>
                exists k :: k in objects && StartsWith(k, ToKey(p)) && FirstSegment(k[|ToKey(p)|..]) == Some(n)
    {
      var prefix := ToKey(p);
      var keys := ListPrefix(prefix);
      names := ReaddirNames(keys, prefix);
      forall k | k in keys ensures ChildName(k, prefix) == FirstSegment(k[|prefix|..]) {
        ChildNameUnderPrefix(k, prefix);
      }
    }

    /** `readFile(p)`: the body under the key of `p`, or the store's not-found error. */
    method ReadFile(p: string) returns (r: Result<Bytes, FsError>)
      ensures ToKey(p) in objects ==> r == Ok(objects[ToKey(p)])
      ensures ToKey(p) !in objects ==> r == Err(NotFound)
    {
      var key := ToKey(p);
      if key in objects {
        r := Ok(objects[key]);
      } else {
        r := Err(NotFound);
      }
    }

    /** `writeFile(p, c)`: puts `c` under `p` itself, leading separator included. */
    method WriteFile(p: string, c: Bytes)
      modifies this
      ensures objects == old(objects)[p := c]
    {
      objects := objects[p := c];
    }

    /**
     * `appendFile(p, c)`: reads the key of `p`, taking a missing object as
     * empty, and puts back the old body followed by `c`; no other key changes.
     */
    method AppendFile(p: string, c: Bytes)
      modifies this
      ensures ToKey(p) !in old(objects) ==> objects == old(objects)[ToKey(p) := c]
      ensures ToKey(p) in old(objects) ==> objects == old(objects)[ToKey(p) := old(objects)[ToKey(p)] + c]
    {
      var existing: Bytes := [];
      var res := ReadFile(p);
      if res.Ok? {
        existing := res.value;
      }
      assert res.Err? ==> existing + c == c;
      objects := objects[ToKey(p) := existing + c];
    }

    /**
     * `rename(p, pp)`: lists the keys under the key of `p` and, for each in
     * turn, copies it to the key with the first `p` replaced by `pp` and
     * deletes the original.
     */
    method Rename(p: string, pp: string) returns (ghost listed: seq<string>)
      modifies this
      ensures NoDuplicates(listed)
      ensures forall k :: k in listed <==> k in old(objects) && StartsWith(k, ToKey(p))
      ensures objects == RenameAll(old(objects), listed, p, pp)
    {
      var keys := ListPrefix(ToKey(p));
      listed := keys;
      var i := 0;
      while i < |keys|
        invariant 0 <= i <= |keys|
        invariant objects == RenameAll(old(objects), keys[..i], p, pp)
        invariant forall j :: i <= j < |keys| ==> keys[j] in objects
      {
        var key := keys[i];
        var newName := ReplaceFirst(key, p, pp);
        ghost var before := objects;
        objects := objects[newName := objects[key]];
        objects := objects - {key};
        assert objects == Move(before, key, newName);
        assert keys[..i + 1][..i] == keys[..i] && keys[..i + 1][i] == key;
        assert NewName(p, pp)(key) == newName;
        assert objects == RenameAll(old(objects), keys[..i + 1], p, pp);
        forall j | i + 1 <= j < |keys|
          ensures keys[j] in objects
        {
          assert keys[j] != key;
        }
        i := i + 1;
      }
      assert keys[..|keys|] == keys;
    }

    /** `exists(p)`: whether an object is stored under the key of `p`. */
    method Exists(p: string) returns (b: bool)
      ensures b <==> ToKey(p) in objects
    {
      b := ToKey(p) in objects;
    }

    /** `stat(p)`: a path with no object under its key is taken for a directory. */
    method Stat(p: string) returns (s: Stats)
      ensures s.isDirectory <==> ToKey(p) !in objects
    {
      s := Stats(ToKey(p) !in objects);
    }

    /** `mkdir(p)`: the store has no directories, so nothing happens. */
    method Mkdir(p: string)
      ensures objects == old(objects)
    {
    }

    /** `remove(p)`: deletes every object under the key of `p` and nothing else. */
    method Remove(p: string)
      modifies this
      ensures forall k :: k in objects <==> k in old(objects) && !StartsWith(k, ToKey(p))
      ensures forall k :: k in objects ==> objects[k] == old(objects)[k]
    {
      var keys := ListPrefix(ToKey(p));
      var i := 0;
      while i < |keys|
        invariant 0 <= i <= |keys|
        invariant forall k :: k in objects <==> k in old(objects) && k !in keys[..i]
        invariant forall k :: k in objects ==> objects[k] == old(objects)[k]
      {
        objects := objects - {keys[i]};
        assert keys[..i + 1] == keys[..i] + [keys[i]];
        i := i + 1;
      }
      assert keys[..|keys|] == keys;
    }
  }
}
