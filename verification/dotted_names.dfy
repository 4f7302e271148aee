/** Dotted parameter names of a weight checkpoint, such as
    `module.basenet.slice1.0.weight`, and Python's `str.split('.')`,
    `'.'.join(...)` and `str.startswith("module")` on them. */
module DottedNames {

  /** The separator between the segments of a parameter name. */
  const Sep: char := '.'

  /** The prefix a name has when the checkpoint was saved from a
      data-parallel wrapper. */
  const ModulePrefix: string := "module"

  /** `'.'.join(parts)`: the segments with one separator between
      neighbours; no segments give the empty string. */
  function Join(parts: seq<string>): string
  {
    if |parts| == 0 then ""
    else if |parts| == 1 then parts[0]
    else parts[0] + [Sep] + Join(parts[1..])
  }

  /** Prepending a character to a name prepends it to the first segment. */
  lemma JoinExtendFirst(c: char, first: string, rest: seq<string>)
    ensures Join([[c] + first] + rest) == [c] + Join([first] + rest)
  {
    var q := [[c] + first] + rest;
    var p := [first] + rest;
    if |rest| == 0 {
      assert q == [[c] + first] && p == [first];
    } else {
      assert q[0] == [c] + first && q[1..] == rest;
      assert p[0] == first && p[1..] == rest;
    }
  }

  /** `s.split('.')`: at least one segment, none holding a separator, and
      joining them again gives back `s`. */
  function Split(s: string): (parts: seq<string>)
    ensures |parts| >= 1
    ensures forall i :: 0 <= i < |parts| ==> Sep !in parts[i]
    ensures Join(parts) == s
  {
    if |s| == 0 then [""]
    else
      var rest := Split(s[1..]);
      if s[0] == Sep then
        assert ([""] + rest)[1..] == rest;
        assert s == [Sep] + s[1..];
        [""] + rest
      else
        JoinExtendFirst(s[0], rest[0], rest[1..]);
        assert [rest[0]] + rest[1..] == rest;
        assert s == [s[0]] + s[1..];
        [[s[0]] + rest[0]] + rest[1..]
  }

  /** A name without separators is a single segment. */
  lemma {:induction false} SplitSingle(p: string)
    requires Sep !in p
    ensures Split(p) == [p]
  {
    if |p| > 0 {
      SplitSingle(p[1..]);
      assert p == [p[0]] + p[1..];
    }
  }

  /** Splitting `p.t` for a separator-free `p` yields `p` followed by the
      segments of `t`. */
  lemma {:induction false} SplitAfterSegment(p: string, t: string)
    requires Sep !in p
    ensures Split(p + [Sep] + t) == [p] + Split(t)
  {
    var s := p + [Sep] + t;
    if |p| == 0 {
      assert s[1..] == t;
    } else {
      assert s[1..] == p[1..] + [Sep] + t;
      SplitAfterSegment(p[1..], t);
      assert [p[0]] + p[1..] == p;
    }
  }

  /** Split inverts Join on separator-free segments: together with the
      contract of Split, the two are mutually inverse. */
  lemma {:induction false} SplitJoin(parts: seq<string>)
    requires |parts| >= 1
    requires forall i :: 0 <= i < |parts| ==> Sep !in parts[i]
    ensures Split(Join(parts)) == parts
  {
    if |parts| == 1 {
      SplitSingle(parts[0]);
    } else {
      SplitJoin(parts[1..]);
      SplitAfterSegment(parts[0], Join(parts[1..]));
      assert parts == [parts[0]] + parts[1..];
    }
  }

  /** `k.startswith("module")`. */
  predicate StartsWithModule(k: string) {
    |ModulePrefix| <= |k| && k[..|ModulePrefix|] == ModulePrefix
  }

  /** The position of the first separator in `k`. */
  function FirstSep(k: string): (i: nat)
    requires Sep in k
    ensures i < |k| && k[i] == Sep
    ensures Sep !in k[..i]
  {
    if k[0] == Sep then 0
    else
      var i := FirstSep(k[1..]);
      assert k[..i + 1] == [k[0]] + k[1..][..i];
      i + 1
  }

  /** What follows the first separator of `k`; the empty string when `k`
      has none. */
  function AfterFirstSep(k: string): string {
    if Sep in k then k[FirstSep(k) + 1..] else ""
  }

  /** Dropping the first split segment and joining the rest keeps exactly
      what follows the first separator. */
  lemma {:induction false} DropFirstSegment(k: string)
    ensures Join(Split(k)[1..]) == AfterFirstSep(k)
  {
    if |k| > 0 {
      var rest := Split(k[1..]);
      if k[0] != Sep {
        DropFirstSegment(k[1..]);
        assert ([[k[0]] + rest[0]] + rest[1..])[1..] == rest[1..];
        if Sep in k {
          assert Sep in k[1..] by {
            var i := FirstSep(k);
            assert k[1..][i - 1] == Sep;
          }
        }
      } else {
        assert ([""] + rest)[1..] == rest;
      }
    }
  }

  /** The new name of checkpoint key `k`: `'.'.join(k.split('.')[start:])`
      with start index 1 when `strip` holds and 0 otherwise. Stripping keeps
      what follows the first separator (nothing, for a key without one);
      not stripping keeps the key as it is. */
  function Rename(k: string, strip: bool): (name: string)
    ensures strip ==> name == AfterFirstSep(k)
    ensures !strip ==> name == k
  {
    var start := if strip then 1 else 0;
    DropFirstSegment(k);
    Join(Split(k)[start..])
  }
}
