/**
 * The webpack plugin's `done` hook: every CSS file contributed a map from
 * variable name to `{usages}`, and the hook folds them, file by file and key by
 * key, into one map from name to `{name, usages}` whose usage lists are the
 * per-file lists concatenated. Writing the JSON file is not modelled; the
 * choice of its name is.
 */
module VariableCombinePlugin {
  import opened Wrappers
  import opened Sequences
  import opened JsObjects

  /** A per-file entry: `usages` may be missing (`undefined` or `null`). */
  datatype FileVar<U> = FileVar(usages: Option<seq<U>>)

  /** An entry of the combined map. */
  datatype CombinedVar<U> = CombinedVar(name: string, usages: seq<U>)

  /** `v.usages || []`. */
  function UsagesOrEmpty<U>(v: FileVar<U>): seq<U> {
    match v.usages
    case None => []
    case Some(us) => us
  }

  // ---------------------------------------------------------------------------
  // The fold, as a list of contributions

  /** What one `[k, v]` pair of a file adds: the key and the usages to push. */
  datatype Contribution<U> = Contribution(name: string, usages: seq<U>)

  /** The contributions of the keys `ks` of a file map `m`, in key order. */
  function KeyContributions<U>(ks: seq<string>, m: map<string, FileVar<U>>): seq<Contribution<U>>
    requires forall k :: k in ks ==> k in m
  {
    if ks == [] then []
    else KeyContributions(ks[..|ks| - 1], m) + [Contribution(ks[|ks| - 1], UsagesOrEmpty(m[ks[|ks| - 1]]))]
  }

  /** Every per-file map is a well-formed object. */
  ghost predicate AllValid<U>(files: seq<Dict<FileVar<U>>>) {
    forall i :: 0 <= i < |files| ==> files[i].Valid()
  }

  /** The contributions of all files, file after file. */
  function Contributions<U>(files: seq<Dict<FileVar<U>>>): seq<Contribution<U>>
    requires AllValid(files)
  {
    if files == [] then []
    else
      var f := files[|files| - 1];
      Contributions(files[..|files| - 1]) + KeyContributions(f.keys, f.entries)
  }

  /** One loop turn: create `{name: k, usages: []}` when the key is new, then push the usages. */
  function AddContribution<U>(vars: Dict<CombinedVar<U>>, c: Contribution<U>): (d: Dict<CombinedVar<U>>)
    requires vars.Valid()
    ensures d.Valid()
    ensures d.keys == if c.name in vars.entries then vars.keys else vars.keys + [c.name]
    ensures forall n :: n != c.name ==> (n in d.entries <==> n in vars.entries)
    ensures forall n :: n != c.name && n in vars.entries ==> d.entries[n] == vars.entries[n]
    ensures c.name in d.entries
    ensures var v := if c.name in vars.entries then vars.entries[c.name] else CombinedVar(c.name, []);
      d.entries[c.name] == v.(usages := v.usages + c.usages)
  {
    var vars' := if c.name !in vars.entries then vars.Put(c.name, CombinedVar(c.name, [])) else vars;
    var v := vars'.entries[c.name];
    vars'.Put(c.name, v.(usages := v.usages + c.usages))
  }

  /** The map after the contributions, taken in order, are added to `acc`. */
  function Gather<U>(acc: Dict<CombinedVar<U>>, cs: seq<Contribution<U>>): (d: Dict<CombinedVar<U>>)
    requires acc.Valid()
    ensures d.Valid()
  {
    if cs == [] then acc else AddContribution(Gather(acc, cs[..|cs| - 1]), cs[|cs| - 1])
  }

  /** The `reduce` over the files, starting from `{}`. */
  function Combine<U>(files: seq<Dict<FileVar<U>>>): (d: Dict<CombinedVar<U>>)
    requires AllValid(files)
    ensures d.Valid()
  {
    Gather(Empty(), Contributions(files))
  }

  // ---------------------------------------------------------------------------
  // What the fold computes

  function Names<U>(cs: seq<Contribution<U>>): (r: seq<string>)
    ensures |r| == |cs| && forall k :: 0 <= k < |cs| ==> r[k] == cs[k].name
  {
    seq(|cs|, k requires 0 <= k < |cs| => cs[k].name)
  }

  /** The usages contributed under `n`, concatenated in order. */
  function UsagesFor<U>(cs: seq<Contribution<U>>, n: string): seq<U> {
    if cs == [] then []
    else UsagesFor(cs[..|cs| - 1], n) + (if cs[|cs| - 1].name == n then cs[|cs| - 1].usages else [])
  }

  /** Every key of every file, file after file, repeats included. */
  function AllKeys<U>(files: seq<Dict<FileVar<U>>>): seq<string> {
    if files == [] then [] else AllKeys(files[..|files| - 1]) + files[|files| - 1].keys
  }

  /** The usage lists the files hold under `n`, concatenated in file order. */
  function PerFileUsages<U>(files: seq<Dict<FileVar<U>>>, n: string): seq<U> {
    if files == [] then []
    else
      var f := files[|files| - 1];
      PerFileUsages(files[..|files| - 1], n) + (if n in f.entries then UsagesOrEmpty(f.entries[n]) else [])
  }

  /** A name never contributed has no usages. */
  lemma {:induction false} AbsentNameNoUsages<U>(cs: seq<Contribution<U>>, n: string)
    requires n !in Names(cs)
    ensures UsagesFor(cs, n) == []
  {
    if cs != [] {
      var init := cs[..|cs| - 1];
      assert Names(cs)[..|init|] == Names(init);
      AbsentNameNoUsages(init, n);
    }
  }

  /** Gathering two runs of contributions is gathering their concatenation. */
  lemma {:induction false} GatherAppend<U>(acc: Dict<CombinedVar<U>>, a: seq<Contribution<U>>, b: seq<Contribution<U>>)
    requires acc.Valid()
    ensures Gather(acc, a + b) == Gather(Gather(acc, a), b)
  {
    if b != [] {
      var b' := b[..|b| - 1];
      assert (a + b)[..|a + b| - 1] == a + b';
      GatherAppend(acc, a, b');
    } else {
      assert a + b == a;
    }
  }

  /** The names are listed in order of first contribution. */
  lemma {:induction false} GatherKeys<U>(cs: seq<Contribution<U>>)
    ensures Gather(Empty(), cs).keys == Dedup(Names(cs))
  {
    if cs != [] {
      var init := cs[..|cs| - 1];
      GatherKeys(init);
      assert Names(cs)[..|cs| - 1] == Names(init);
      var before := Gather(Empty(), init);
      assert cs[|cs| - 1].name in before.entries <==> cs[|cs| - 1].name in before.keys;
    }
  }

  /** One contribution more: its name's usages grow by its own, every other entry stays. */
  lemma AddContributionEntries<U>(before: Dict<CombinedVar<U>>, init: seq<Contribution<U>>, c: Contribution<U>, n: string)
    requires before.Valid() && before.keys == Dedup(Names(init))
    requires forall m :: m in before.entries ==> before.entries[m] == CombinedVar(m, UsagesFor(init, m))
    requires n in AddContribution(before, c).entries
    ensures AddContribution(before, c).entries[n] == CombinedVar(n, UsagesFor(init, n) + (if c.name == n then c.usages else []))
  {
    if n == c.name {
      if n !in before.entries {
        DedupSound(Names(init));
        AbsentNameNoUsages(init, n);
      }
    } else {
      assert UsagesFor(init, n) + [] == UsagesFor(init, n);
    }
  }

  /** The entry under a name is right after the last contribution, given that every entry was right before it. */
  lemma GatherStep<U>(cs: seq<Contribution<U>>, n: string)
    requires cs != []
    requires var before := Gather(Empty(), cs[..|cs| - 1]);
      forall m :: m in before.entries ==> before.entries[m] == CombinedVar(m, UsagesFor(cs[..|cs| - 1], m))
    requires n in Gather(Empty(), cs).entries
    ensures Gather(Empty(), cs).entries[n] == CombinedVar(n, UsagesFor(cs, n))
  {
    var init := cs[..|cs| - 1];
    GatherKeys(init);
    AddContributionEntries(Gather(Empty(), init), init, cs[|cs| - 1], n);
  }

  /**
   * The gathered map: names in order of first contribution, each entry named
   * by its key and holding every usage contributed under it, in order.
   */
  lemma {:induction false} GatherContents<U>(cs: seq<Contribution<U>>)
    ensures Gather(Empty(), cs).keys == Dedup(Names(cs))
    ensures forall n :: n in Gather(Empty(), cs).entries ==> Gather(Empty(), cs).entries[n] == CombinedVar(n, UsagesFor(cs, n))
  {
    GatherKeys(cs);
    if cs != [] {
      GatherContents(cs[..|cs| - 1]);
      forall n | n in Gather(Empty(), cs).entries
        ensures Gather(Empty(), cs).entries[n] == CombinedVar(n, UsagesFor(cs, n))
      {
        GatherStep(cs, n);
      }
    }
  }

  lemma {:induction false} KeyContributionsNames<U>(ks: seq<string>, m: map<string, FileVar<U>>)
    requires forall k :: k in ks ==> k in m
    ensures Names(KeyContributions(ks, m)) == ks
  {
    if ks != [] {
      var init := ks[..|ks| - 1];
      KeyContributionsNames(init, m);
      assert ks == init + [ks[|ks| - 1]];
    }
  }

  /** Within one file keys are distinct, so a key contributes its own usages once and other keys nothing. */
  lemma {:induction false} KeyContributionsUsages<U>(ks: seq<string>, m: map<string, FileVar<U>>, n: string)
    requires forall k :: k in ks ==> k in m
    requires Distinct(ks)
    ensures UsagesFor(KeyContributions(ks, m), n) == if n in ks then UsagesOrEmpty(m[n]) else []
  {
    if ks != [] {
      var init := ks[..|ks| - 1];
      var last := ks[|ks| - 1];
      var cs := KeyContributions(ks, m);
      assert cs[..|cs| - 1] == KeyContributions(init, m);
      KeyContributionsUsages(init, m, n);
      assert ks == init + [last];
      if n == last {
        assert n !in init;
        assert [] + UsagesOrEmpty(m[n]) == UsagesOrEmpty(m[n]);
      }
    }
  }

  lemma {:induction false} UsagesForAppend<U>(a: seq<Contribution<U>>, b: seq<Contribution<U>>, n: string)
    ensures UsagesFor(a + b, n) == UsagesFor(a, n) + UsagesFor(b, n)
  {
    if b == [] {
      assert a + b == a;
    } else {
      var b' := b[..|b| - 1];
      assert (a + b)[..|a + b| - 1] == a + b';
      UsagesForAppend(a, b', n);
    }
  }

  lemma NamesAppend<U>(a: seq<Contribution<U>>, b: seq<Contribution<U>>)
    ensures Names(a + b) == Names(a) + Names(b)
  {
  }

  /** The contributions name every key of every file, file after file. */
  lemma {:induction false} ContributionsNames<U>(files: seq<Dict<FileVar<U>>>)
    requires AllValid(files)
    ensures Names(Contributions(files)) == AllKeys(files)
  {
    if files != [] {
      var init := files[..|files| - 1];
      var f := files[|files| - 1];
      ContributionsNames(init);
      KeyContributionsNames(f.keys, f.entries);
      NamesAppend(Contributions(init), KeyContributions(f.keys, f.entries));
    }
  }

  /** The usages contributed under a name are the files' lists for it, in file order. */
  lemma {:induction false} ContributionsUsages<U>(files: seq<Dict<FileVar<U>>>, n: string)
    requires AllValid(files)
    ensures UsagesFor(Contributions(files), n) == PerFileUsages(files, n)
  {
    if files != [] {
      var init := files[..|files| - 1];
      var f := files[|files| - 1];
      ContributionsUsages(init, n);
      UsagesForAppend(Contributions(init), KeyContributions(f.keys, f.entries), n);
      KeyContributionsUsages(f.keys, f.entries, n);
    }
  }

  /**
   * What the hook builds: the keys of all files in order of first appearance,
   * each entry named by its key and holding the files' usage lists for that
   * key concatenated in file order (a missing list adds nothing).
   */
  lemma CombineContents<U>(files: seq<Dict<FileVar<U>>>)
    requires AllValid(files)
    ensures Combine(files).keys == Dedup(AllKeys(files))
    ensures forall k :: k in Combine(files).entries ==> Combine(files).entries[k] == CombinedVar(k, PerFileUsages(files, k))
  {
    GatherContents(Contributions(files));
    ContributionsNames(files);
    forall k | k in Combine(files).entries
      ensures Combine(files).entries[k] == CombinedVar(k, PerFileUsages(files, k))
    {
      ContributionsUsages(files, k);
    }
  }

  lemma {:induction false} InAllKeys<U>(files: seq<Dict<FileVar<U>>>, k: string)
    requires AllValid(files)
    ensures k in AllKeys(files) <==> exists i :: 0 <= i < |files| && k in files[i].entries
  {
    if files != [] {
      var init := files[..|files| - 1];
      InAllKeys(init, k);
      if k in files[|files| - 1].entries {
        assert k in files[|files| - 1].keys;
      }
      if k in AllKeys(init) {
        var i :| 0 <= i < |init| && k in init[i].entries;
        assert files[i] == init[i];
      }
    }
  }

  /** A name is in the combined map exactly when some file has it, whether or not it lists usages. */
  lemma CombineKeySet<U>(files: seq<Dict<FileVar<U>>>, k: string)
    requires AllValid(files)
    ensures k in Combine(files).entries <==> exists i :: 0 <= i < |files| && k in files[i].entries
  {
    CombineContents(files);
    DedupSound(AllKeys(files));
    InAllKeys(files, k);
  }

  // ---------------------------------------------------------------------------
  // The hook

  /** One step of `Gather`: the contribution of key `ks[j]`. */
  lemma GatherKeyStep<U>(acc: Dict<CombinedVar<U>>, ks: seq<string>, m: map<string, FileVar<U>>, j: nat)
    requires acc.Valid() && j < |ks| && forall k :: k in ks ==> k in m
    ensures Gather(acc, KeyContributions(ks[..j + 1], m))
      == AddContribution(Gather(acc, KeyContributions(ks[..j], m)), Contribution(ks[j], UsagesOrEmpty(m[ks[j]])))
  {
    assert ks[..j + 1][..j] == ks[..j];
  }

  /** The callback of `Object.entries(fileVars).forEach`, over every key of one file. */
  method AddFileVars<U>(vars: Dict<CombinedVar<U>>, fileVars: Dict<FileVar<U>>) returns (r: Dict<CombinedVar<U>>)
    requires vars.Valid() && fileVars.Valid()
    ensures r == Gather(vars, KeyContributions(fileVars.keys, fileVars.entries))
  {
    r := vars;
    for j := 0 to |fileVars.keys|
      invariant r.Valid()
      invariant r == Gather(vars, KeyContributions(fileVars.keys[..j], fileVars.entries))
    {
      var k := fileVars.keys[j];
      var v := fileVars.entries[k];
      GatherKeyStep(vars, fileVars.keys, fileVars.entries, j);
      if k !in r.entries {
        r := r.Put(k, CombinedVar(k, []));
      }
      r := r.Put(k, r.entries[k].(usages := r.entries[k].usages + UsagesOrEmpty(v)));
    }
    assert fileVars.keys[..|fileVars.keys|] == fileVars.keys;
  }

  /**
   * `Object.entries(allCssVars).reduce(...)`: the file names are dropped and
   * each file's map is folded into the accumulator, in file order.
   */
  method CombineVars<U>(allCssVars: Dict<Dict<FileVar<U>>>) returns (vars: Dict<CombinedVar<U>>)
    requires allCssVars.Valid()
    requires forall f :: f in allCssVars.entries ==> allCssVars.entries[f].Valid()
    ensures AllValid(allCssVars.Values())
    ensures vars == Combine(allCssVars.Values())
  {
    var files := allCssVars.Values();
    vars := Empty();
    for i := 0 to |files|
      invariant AllValid(files[..i])
      invariant vars == Combine(files[..i])
    {
      var fileVars := files[i];
      ghost var before := Contributions(files[..i]);
      assert files[..i + 1][..i] == files[..i];
      vars := AddFileVars(vars, fileVars);
      GatherAppend(Empty(), before, KeyContributions(fileVars.keys, fileVars.entries));
    }
    assert files[..|files|] == files;
  }

  /** `${filename || 'css-variables.json'}`: the given name unless it is missing or empty. */
  function OutputFilename(filename: Option<string>): (r: string)
    ensures filename.Some? && filename.value != [] ==> r == filename.value
    ensures filename.None? || filename.value == [] ==> r == "css-variables.json"
  {
    if filename.Some? && filename.value != [] then filename.value else "css-variables.json"
  }
}
