/** `copyStateDict` of easyocr/detection.py: renaming the entries of a
    weight checkpoint before loading it into the detection network. */
module StateDict {
  import opened Wrappers
  import opened Occurrences
  import opened DottedNames
  import opened OrderedDicts

  /** The names a checkpoint's keys are meant to receive, stated without
      splitting: with `strip`, what follows each key's first separator;
      without it, the keys themselves. */
  function ExpectedNames<V>(sd: OrderedDict<string, V>, strip: bool): (names: seq<string>)
  {
    if strip then seq(|sd|, i requires 0 <= i < |sd| => AfterFirstSep(sd[i].0))
    else Keys(sd)
  }

  /** The loop of copyStateDict after its first `|sd|` iterations: every
      entry's key renamed and assigned, in order, into a fresh OrderedDict. */
  function Load<V>(sd: OrderedDict<string, V>, strip: bool): (d: OrderedDict<string, V>)
    ensures Distinct(Keys(d))
  {
    if |sd| == 0 then []
    else
      var (k, v) := sd[|sd| - 1];
      Put(Load(sd[..|sd| - 1], strip), Rename(k, strip), v)
  }

  /** Renaming the entries of a prefix gives a prefix of the names. */
  lemma ExpectedNamesOfPrefix<V>(sd: OrderedDict<string, V>, strip: bool)
    requires |sd| > 0
    ensures ExpectedNames(sd, strip) ==
      ExpectedNames(sd[..|sd| - 1], strip) + [Rename(sd[|sd| - 1].0, strip)]
  {
    var names := ExpectedNames(sd, strip);
    var pnames := ExpectedNames(sd[..|sd| - 1], strip);
    assert |pnames| == |sd| - 1;
    assert forall i :: 0 <= i < |sd| - 1 ==> pnames[i] == names[i];
  }

  /** After the loop the new dict lists each expected name once, at its
      first occurrence. */
  lemma {:induction false} LoadKeys<V>(sd: OrderedDict<string, V>, strip: bool)
    ensures Keys(Load(sd, strip)) == Dedup(ExpectedNames(sd, strip))
  {
    if |sd| > 0 {
      var p := sd[..|sd| - 1];
      var m := Rename(sd[|sd| - 1].0, strip);
      var l := Load(p, strip);
      LoadKeys(p, strip);
      ExpectedNamesOfPrefix(sd, strip);
      var names := ExpectedNames(sd, strip);
      assert names[..|sd| - 1] == ExpectedNames(p, strip);
      PutKeys(l, m, sd[|sd| - 1].1);
    }
  }

  /** Each entry of the new dict holds the value of the LAST checkpoint
      entry renamed to its name. */
  lemma {:induction false} LoadValues<V>(sd: OrderedDict<string, V>, strip: bool)
    ensures forall i :: 0 <= i < |Load(sd, strip)| ==>
      Load(sd, strip)[i].0 in ExpectedNames(sd, strip) &&
      Load(sd, strip)[i].1 == sd[LastIndex(ExpectedNames(sd, strip), Load(sd, strip)[i].0)].1
  {
    var names := ExpectedNames(sd, strip);
    if |sd| > 0 {
      var n := |sd|;
      var p := sd[..n - 1];
      var v := sd[n - 1].1;
      var m := Rename(sd[n - 1].0, strip);
      var l := Load(p, strip);
      var pnames := ExpectedNames(p, strip);
      LoadValues(p, strip);
      ExpectedNamesOfPrefix(sd, strip);
      var r := Put(l, m, v);
      assert r == Load(sd, strip);
      LastIndexUnique(names, m, n - 1);
      PutEntries(l, m, v);
      forall i | 0 <= i < |r|
        ensures r[i].0 in names && r[i].1 == sd[LastIndex(names, r[i].0)].1
      {
        if r[i].0 != m {
          var j := LastIndex(pnames, l[i].0);
          assert names[j] == pnames[j];
          LastIndexUnique(names, l[i].0, j);
        }
      }
    }
  }

  /** Without repeated names no entry is lost. */
  lemma LoadSize<V>(sd: OrderedDict<string, V>, strip: bool)
    ensures |Load(sd, strip)| <= |sd|
    ensures Distinct(ExpectedNames(sd, strip)) ==> |Load(sd, strip)| == |sd|
  {
    var names := ExpectedNames(sd, strip);
    LoadKeys(sd, strip);
    if Distinct(names) {
      DedupOfDistinct(names);
    }
  }

  /** copyStateDict: when the first key starts with "module", every key
      (whether or not it starts with "module") loses its first segment;
      otherwise every key is kept. Entries are assigned in order into an
      OrderedDict, so a repeated new name keeps its first position and takes
      its last value. An empty checkpoint raises IndexError. */
  function CopyStateDict<V>(sd: OrderedDict<string, V>): (r: Result<OrderedDict<string, V>>)
    ensures if |sd| == 0 then r == Err(IndexError) else r.Ok?
    ensures r.Ok? ==>
      var names := ExpectedNames(sd, StartsWithModule(sd[0].0));
      && Keys(r.value) == Dedup(names)
      && (forall i :: 0 <= i < |r.value| ==>
            r.value[i].0 in names && r.value[i].1 == sd[LastIndex(names, r.value[i].0)].1)
    ensures r.Ok? ==> |r.value| <= |sd|
    ensures r.Ok? && Distinct(ExpectedNames(sd, StartsWithModule(sd[0].0))) ==> |r.value| == |sd|
  {
    if |sd| == 0 then Err(IndexError)
    else
      var strip := StartsWithModule(sd[0].0);
      LoadKeys(sd, strip);
      LoadValues(sd, strip);
      LoadSize(sd, strip);
      Ok(Load(sd, strip))
  }

  /** Without stripping, loading entries with distinct keys appends each
      one in turn, so the loop rebuilds the checkpoint itself. */
  lemma {:induction false} LoadDistinctUnstripped<V>(sd: OrderedDict<string, V>)
    requires Distinct(Keys(sd))
    ensures Load(sd, false) == sd
  {
    if |sd| > 0 {
      var n := |sd|;
      var p := sd[..n - 1];
      assert Keys(p) == Keys(sd)[..n - 1];
      LoadDistinctUnstripped(p);
      assert sd[n - 1].0 == Keys(sd)[n - 1];
      assert sd[n - 1].0 !in Keys(p);
      assert p + [sd[n - 1]] == sd;
    }
  }

  /** A checkpoint whose first key does not start with "module" and whose
      keys are distinct comes back unchanged: same keys, same values, same
      order. */
  lemma KeepsCheckpointWithoutModulePrefix<V>(sd: OrderedDict<string, V>)
    requires |sd| > 0 && !StartsWithModule(sd[0].0)
    requires Distinct(Keys(sd))
    ensures CopyStateDict(sd) == Ok(sd)
  {
    LoadDistinctUnstripped(sd);
  }

  /** With a "module" first key the renaming reaches every key: each key's
      remainder after its first separator is an output name, and every
      output name is such a remainder. */
  lemma StripsEveryKeyAfterModulePrefix<V>(sd: OrderedDict<string, V>)
    requires |sd| > 0 && StartsWithModule(sd[0].0)
    ensures forall i :: 0 <= i < |sd| ==> AfterFirstSep(sd[i].0) in Keys(CopyStateDict(sd).value)
    ensures forall j :: 0 <= j < |CopyStateDict(sd).value| ==>
      exists i :: 0 <= i < |sd| && CopyStateDict(sd).value[j].0 == AfterFirstSep(sd[i].0)
  {
    var r := CopyStateDict(sd).value;
    var names := ExpectedNames(sd, true);
    forall i | 0 <= i < |sd|
      ensures AfterFirstSep(sd[i].0) in Keys(r)
    {
      assert names[i] == AfterFirstSep(sd[i].0);
    }
    forall j | 0 <= j < |r|
      ensures exists i :: 0 <= i < |sd| && r[j].0 == AfterFirstSep(sd[i].0)
    {
      var i := LastIndex(names, r[j].0);
      assert names[i] == AfterFirstSep(sd[i].0);
    }
  }
}
