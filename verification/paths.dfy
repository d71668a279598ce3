/**
 * The string logic under the filesystem operations: turning a path into a
 * store key, joining paths, JavaScript's first-occurrence `String.replace`
 * with a string pattern, `String.split` on a one-character separator, and
 * the pipeline `readdir` runs over the listed keys.
 */
module Paths {
  import opened Common

  const Sep: char := '/'

  /** `p.replace(/^\//, '')`: the store key of a filesystem path. */
  function ToKey(p: string): (k: string)
    ensures |p| > 0 && p[0] == Sep ==> [Sep] + k == p
    ensures |p| == 0 || p[0] != Sep ==> k == p
  {
    if |p| > 0 && p[0] == Sep then p[1..] else p
  }

  /** `path.join` of the returned filesystem object: plain concatenation around one separator. */
  function Join(a: string, b: string): (r: string)
    ensures |r| == |a| + |b| + 1 && r[..|a|] == a && r[|a|] == Sep && r[|a| + 1..] == b
  {
    a + [Sep] + b
  }

  /** `pat` occurs in `s` starting at index `i`. */
  predicate OccursAt(s: string, pat: string, i: nat) {
    i + |pat| <= |s| && s[i..i + |pat|] == pat
  }

  /** The index of the first occurrence of `pat` in `s` at or after `from` (`String.indexOf`). */
  function IndexFrom(s: string, pat: string, from: nat): (r: Option<nat>)
    ensures r.Some? ==> from <= r.value && OccursAt(s, pat, r.value)
    ensures r.Some? ==> forall j :: from <= j < r.value ==> !OccursAt(s, pat, j)
    ensures r.None? ==> forall j :: from <= j <= |s| ==> !OccursAt(s, pat, j)
    decreases |s| - from
  {
    if OccursAt(s, pat, from) then Some(from)
    else if from >= |s| then None
    else IndexFrom(s, pat, from + 1)
  }

  /**
   * `s.replace(pat, rep)` with a string pattern: only the first occurrence
   * is replaced, and `s` is returned unchanged when `pat` does not occur.
   */
  function ReplaceFirst(s: string, pat: string, rep: string): (r: string)
    ensures (forall j :: 0 <= j <= |s| ==> !OccursAt(s, pat, j)) ==> r == s
    ensures forall i :: 0 <= i <= |s| && OccursAt(s, pat, i) && (forall j :: 0 <= j < i ==> !OccursAt(s, pat, j)) ==>
              r == s[..i] + rep + s[i + |pat|..]
  {
    match IndexFrom(s, pat, 0)
    case None => s
    case Some(i) => s[..i] + rep + s[i + |pat|..]
  }

  /** A key that begins with `pat` has exactly that prefix replaced. */
  lemma ReplaceAtStart(s: string, pat: string, rep: string)
    requires StartsWith(s, pat)
    ensures ReplaceFirst(s, pat, rep) == rep + s[|pat|..]
  {
    assert OccursAt(s, pat, 0);
    assert IndexFrom(s, pat, 0) == Some(0);
    assert s[..0] + rep == rep;
  }

  /** Replacing a pattern by itself gives the string back. */
  lemma ReplaceBySelf(s: string, pat: string)
    ensures ReplaceFirst(s, pat, pat) == s
  {
    match IndexFrom(s, pat, 0)
    case None =>
    case Some(i) =>
      assert s[..i] + pat + s[i + |pat|..] == s[..i] + s[i..i + |pat|] + s[i + |pat|..];
      assert s[..i] + s[i..i + |pat|] + s[i + |pat|..] == s;
  }

  /** The separator occurs nowhere in `s`. */
  predicate SepFree(s: string) {
    forall i :: 0 <= i < |s| ==> s[i] != Sep
  }

  /** `parts.join('/')`. */
  function JoinAll(parts: seq<string>): string
    decreases |parts|
  {
    if |parts| == 0 then []
    else if |parts| == 1 then parts[0]
    else parts[0] + [Sep] + JoinAll(parts[1..])
  }

  /**
   * `s.split('/')`: the maximal separator-free pieces between separators,
   * empty pieces included, so there is always at least one piece.
   */
  function Split(s: string): (parts: seq<string>)
    ensures |parts| >= 1
    ensures forall i :: 0 <= i < |parts| ==> SepFree(parts[i])
    decreases |s|
  {
    if |s| == 0 then [[]]
    else if s[0] == Sep then [[]] + Split(s[1..])
    else
      var t := Split(s[1..]);
      [[s[0]] + t[0]] + t[1..]
  }

  /** Joining the pieces of `s` with the separator gives `s` back. */
  lemma {:induction false} JoinAllSplit(s: string)
    ensures JoinAll(Split(s)) == s
    decreases |s|
  {
    if |s| > 0 {
      JoinAllSplit(s[1..]);
      var t := Split(s[1..]);
      if s[0] == Sep {
        assert Split(s) == [[]] + t && (Split(s))[1..] == t;
        assert [Sep] + s[1..] == s;
      } else {
        var parts := [[s[0]] + t[0]] + t[1..];
        assert Split(s) == parts;
        if |t| > 1 {
          assert parts[1..] == t[1..];
        }
        assert JoinAll(parts) == [s[0]] + JoinAll(t);
        assert [s[0]] + s[1..] == s;
      }
    }
  }

  /** A separator-free string is a single piece. */
  lemma {:induction false} SplitSepFree(x: string)
    requires SepFree(x)
    ensures Split(x) == [x]
    decreases |x|
  {
    if |x| > 0 {
      SplitSepFree(x[1..]);
      assert [x[0]] + x[1..] == x;
    }
  }

  /** A separator-free string followed by a separator splits off as its own piece. */
  lemma {:induction false} SplitSepFreeThen(x: string, rest: string)
    requires SepFree(x)
    ensures Split(x + [Sep] + rest) == [x] + Split(rest)
    decreases |x|
  {
    var s := x + [Sep] + rest;
    if |x| == 0 {
      assert s == [Sep] + rest && s[1..] == rest;
    } else {
      SplitSepFreeThen(x[1..], rest);
      assert s[1..] == x[1..] + [Sep] + rest;
      assert [x[0]] + x[1..] == x;
    }
  }

  /** Splitting a join of separator-free pieces gives the pieces back. */
  lemma {:induction false} SplitJoinAll(parts: seq<string>)
    requires |parts| >= 1
    requires forall i :: 0 <= i < |parts| ==> SepFree(parts[i])
    ensures Split(JoinAll(parts)) == parts
    decreases |parts|
  {
    if |parts| == 1 {
      SplitSepFree(parts[0]);
    } else {
      SplitJoinAll(parts[1..]);
      SplitSepFreeThen(parts[0], JoinAll(parts[1..]));
      assert [parts[0]] + parts[1..] == parts;
    }
  }

  /** Joining two non-empty lists of pieces joins their joins around one separator. */
  lemma {:induction false} JoinAllAppend(xs: seq<string>, ys: seq<string>)
    requires |xs| >= 1 && |ys| >= 1
    ensures JoinAll(xs + ys) == JoinAll(xs) + [Sep] + JoinAll(ys)
    decreases |xs|
  {
    if |xs| == 1 {
      assert (xs + ys)[1..] == ys;
    } else {
      JoinAllAppend(xs[1..], ys);
      assert (xs + ys)[1..] == xs[1..] + ys;
    }
  }

  /** The pieces of `Join(a, b)` are the pieces of `a` followed by those of `b`. */
  lemma SplitJoin(a: string, b: string)
    ensures Split(Join(a, b)) == Split(a) + Split(b)
  {
    var xs, ys := Split(a), Split(b);
    JoinAllSplit(a);
    JoinAllSplit(b);
    JoinAllAppend(xs, ys);
    forall i | 0 <= i < |xs + ys| ensures SepFree((xs + ys)[i]) {
      if i >= |xs| {
        assert (xs + ys)[i] == ys[i - |xs|];
      }
    }
    SplitJoinAll(xs + ys);
  }

  /** `parts.filter(f => f)`: the non-empty pieces, in order. */
  function NonEmpty(parts: seq<string>): (r: seq<string>)
    ensures forall x :: x in r <==> x in parts && x != []
    decreases |parts|
  {
    if |parts| == 0 then []
    else if parts[0] == [] then NonEmpty(parts[1..])
    else [parts[0]] + NonEmpty(parts[1..])
  }

  /** A string made only of separators has no non-empty piece, and any other string has one. */
  lemma {:induction false} NonEmptyPieces(s: string)
    ensures NonEmpty(Split(s)) == [] <==> forall i :: 0 <= i < |s| ==> s[i] == Sep
    decreases |s|
  {
    if |s| > 0 {
      NonEmptyPieces(s[1..]);
      if s[0] == Sep {
        assert ([[]] + Split(s[1..]))[1..] == Split(s[1..]);
        assert forall i :: 1 <= i < |s| ==> s[i] == s[1..][i - 1];
      } else {
        assert Split(s)[0] != [];
      }
    }
  }

  /**
   * `s.split('/').filter(f => f)[0]`: the first non-empty piece of `s`, or
   * nothing (JavaScript's `undefined`) when `s` holds only separators.
   */
  function FirstSegment(s: string): (r: Option<string>)
    ensures r.Some? ==> r.value != [] && SepFree(r.value) && r.value in Split(s)
    ensures r.None? <==> forall i :: 0 <= i < |s| ==> s[i] == Sep
  {
    NonEmptyPieces(s);
    var pieces := NonEmpty(Split(s));
    if |pieces| == 0 then None
    else
      assert pieces[0] in pieces;
      Some(pieces[0])
  }

  /** What one listed key contributes to `readdir`: `Key.replace(prefix, '')`, then its first segment. */
  function ChildName(key: string, prefix: string): (r: Option<string>)
    ensures r.Some? ==> r.value != [] && SepFree(r.value)
  {
    FirstSegment(ReplaceFirst(key, prefix, []))
  }

  /** For a key under the prefix, the child is the first segment of what follows the prefix. */
  lemma ChildNameUnderPrefix(key: string, prefix: string)
    requires StartsWith(key, prefix)
    ensures ChildName(key, prefix) == FirstSegment(key[|prefix|..])
  {
    ReplaceAtStart(key, prefix, []);
    assert [] + key[|prefix|..] == key[|prefix|..];
  }

  /** Leading separators do not change the first segment. */
  lemma FirstSegmentSkipsSep(s: string)
    ensures FirstSegment([Sep] + s) == FirstSegment(s)
  {
    assert ([Sep] + s)[1..] == s;
    assert Split([Sep] + s) == [[]] + Split(s);
    assert ([[]] + Split(s))[1..] == Split(s);
  }

  /** A non-empty separator-free name, followed by a separator or nothing, is the first segment. */
  lemma FirstSegmentOfName(x: string, tail: string)
    requires x != [] && SepFree(x)
    requires tail == [] || tail[0] == Sep
    ensures FirstSegment(x + tail) == Some(x)
  {
    var pieces: seq<string>;
    if tail == [] {
      SplitSepFree(x);
      assert x + tail == x;
      pieces := [x];
    } else {
      SplitSepFreeThen(x, tail[1..]);
      assert x + tail == x + [Sep] + tail[1..];
      pieces := [x] + Split(tail[1..]);
    }
    assert Split(x + tail) == pieces && pieces[0] == x;
    assert NonEmpty(pieces) == [x] + NonEmpty(pieces[1..]);
  }

  /**
   * The first segment, stated independently of `Split`: after any run of
   * separators, the separator-free text up to the next separator (or the end).
   */
  lemma {:induction false} FirstSegmentIs(lead: string, x: string, tail: string)
    requires forall i :: 0 <= i < |lead| ==> lead[i] == Sep
    requires x != [] && SepFree(x)
    requires tail == [] || tail[0] == Sep
    ensures FirstSegment(lead + x + tail) == Some(x)
    decreases |lead|
  {
    if |lead| == 0 {
      assert lead + x + tail == x + tail;
      FirstSegmentOfName(x, tail);
    } else {
      var rest := lead[1..] + x + tail;
      FirstSegmentIs(lead[1..], x, tail);
      assert lead + x + tail == [Sep] + rest;
      FirstSegmentSkipsSep(rest);
    }
  }

  /**
   * A key made of the prefix, any separators, a name and then a separator
   * or nothing contributes that name. The prefix is matched as text, so
   * `readdir('a')` also reports `b` for a key `ab/x` of a sibling directory.
   */
  lemma ChildOfKey(prefix: string, lead: string, x: string, tail: string)
    requires forall i :: 0 <= i < |lead| ==> lead[i] == Sep
    requires x != [] && SepFree(x)
    requires tail == [] || tail[0] == Sep
    ensures ChildName(prefix + (lead + x + tail), prefix) == Some(x)
  {
    var rest := lead + x + tail;
    FirstSegmentIs(lead, x, tail);
    assert (prefix + rest)[..|prefix|] == prefix && (prefix + rest)[|prefix|..] == rest;
    ChildNameUnderPrefix(prefix + rest, prefix);
  }

  /** The sibling case concretely: under the prefix `a`, the key `ab/x` yields the child `b`. */
  lemma SiblingKeyLeaks()
    ensures ChildName("ab/x", "a") == Some("b")
  {
    var x, tail := "b", "/x";
    assert "ab/x" == "a" + ([] + x + tail);
    ChildOfKey("a", [], x, tail);
  }

  /** The defined child names of the listed keys, in listing order (the `.map(...).filter(f => f)` step). */
  function Children(keys: seq<string>, prefix: string): (r: seq<string>)
    ensures forall c :: c in r ==> c != [] && SepFree(c)
    ensures forall c :: c in r <==> exists k :: k in keys && ChildName(k, prefix) == Some(c)
    decreases |keys|
  {
    if |keys| == 0 then []
    else
      var rest := Children(keys[1..], prefix);
      assert forall k :: k in keys <==> k == keys[0] || k in keys[1..];
      match ChildName(keys[0], prefix)
      case Some(c) => [c] + rest
      case None => rest
  }

  /** `[...new Set(xs)]`: each value once, at the place of its first occurrence. */
  function Dedup(xs: seq<string>): (r: seq<string>)
    ensures NoDuplicates(r)
    ensures forall x :: x in r <==> x in xs
    decreases |xs|
  {
    if |xs| == 0 then []
    else
      var front := Dedup(xs[..|xs| - 1]);
      assert xs == xs[..|xs| - 1] + [xs[|xs| - 1]];
      if xs[|xs| - 1] in front then front else front + [xs[|xs| - 1]]
  }

  /**
   * The names `readdir` returns for the keys listed under `prefix`: no name
   * twice, none empty or holding a separator, and a name is returned exactly
   * when some listed key yields it as its child.
   */
  function ReaddirNames(keys: seq<string>, prefix: string): (names: seq<string>)
    ensures NoDuplicates(names)
    ensures forall n :: n in names ==> n != [] && SepFree(n)
    ensures forall n :: n in names <==> exists k :: k in keys && ChildName(k, prefix) == Some(n)
  {
    Dedup(Children(keys, prefix))
  }
}
