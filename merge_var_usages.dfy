/**
 * `mergeVarUsages(inCss, inScss)`: one record per variable of the combined CSS
 * map, in key order, carrying its fields and, as `sourceUsages`, the usages
 * the SCSS scan found for the same name (`null` when the scan found none).
 */
module MergeVarUsages {
  import opened Wrappers
  import opened Sequences
  import opened JsObjects
  import opened ScssVarUsages
  import opened VariableCombinePlugin

  /** `{...inCss[cssVar], sourceUsages}`; `None` stands for `null`. */
  datatype MergedVar<U> = MergedVar(name: string, usages: seq<U>, sourceUsages: Option<seq<ScssUsage>>)

  /** The record for the key `cssVar`: the CSS entry's fields, then the source usages. */
  function MergeOne<U>(entry: CombinedVar<U>, cssVar: string, inScss: Dict<ScssVar>): MergedVar<U> {
    MergedVar(entry.name, entry.usages, if cssVar !in inScss.entries then None else Some(inScss.entries[cssVar].usages))
  }

  /**
   * `Object.keys(inCss).map(...)`: as many records as keys, in key order, each
   * copying the CSS entry's fields, with source usages exactly when the SCSS map
   * has the key, and then the SCSS map's list for it.
   */
  function MergeVarUsages<U>(inCss: Dict<CombinedVar<U>>, inScss: Dict<ScssVar>): (r: seq<MergedVar<U>>)
    requires inCss.Valid()
    ensures |r| == |inCss.keys|
    ensures forall i :: 0 <= i < |r| ==>
      r[i].name == inCss.entries[inCss.keys[i]].name && r[i].usages == inCss.entries[inCss.keys[i]].usages
    ensures forall i :: 0 <= i < |r| ==> (r[i].sourceUsages.None? <==> inCss.keys[i] !in inScss.entries)
    ensures forall i :: 0 <= i < |r| && inCss.keys[i] in inScss.entries ==>
      r[i].sourceUsages == Some(inScss.entries[inCss.keys[i]].usages)
  {
    seq(|inCss.keys|, i requires 0 <= i < |inCss.keys| => MergeOne(inCss.entries[inCss.keys[i]], inCss.keys[i], inScss))
  }

  /** The names of the merged records. */
  function MergedNames<U>(r: seq<MergedVar<U>>): (ns: seq<string>)
    ensures |ns| == |r| && forall i :: 0 <= i < |r| ==> ns[i] == r[i].name
  {
    seq(|r|, i requires 0 <= i < |r| => r[i].name)
  }

  /**
   * When every CSS entry is named by its key, as the combined map's entries are,
   * the records are named by the CSS keys in order: a name the SCSS map alone
   * has never shows up, and no name shows up twice.
   */
  lemma MergedNamesAreCssKeys<U>(inCss: Dict<CombinedVar<U>>, inScss: Dict<ScssVar>)
    requires inCss.Valid()
    requires forall k :: k in inCss.entries ==> inCss.entries[k].name == k
    ensures MergedNames(MergeVarUsages(inCss, inScss)) == inCss.keys
    ensures Distinct(MergedNames(MergeVarUsages(inCss, inScss)))
    ensures forall n :: n in MergedNames(MergeVarUsages(inCss, inScss)) ==> n in inCss.entries
  {
  }

  /**
   * The whole pipeline: merging the combined CSS map with the map built from
   * SCSS records yields one record per variable of the CSS files, in order of
   * first appearance, holding every CSS usage of it in file order, and as
   * source usages the distinct SCSS usages of the name in order of first
   * appearance, or `null` when the SCSS files never use it.
   */
  lemma MergeCombinedWithHarvest<U>(files: seq<Dict<FileVar<U>>>, rs: seq<Record>)
    requires AllValid(files)
    ensures var r := MergeVarUsages(Combine(files), Harvest(rs));
      && MergedNames(r) == Dedup(AllKeys(files))
      && (forall i :: 0 <= i < |r| ==> r[i].usages == PerFileUsages(files, r[i].name))
      && (forall i :: 0 <= i < |r| ==>
            r[i].sourceUsages == if r[i].name in RecordNames(rs) then Some(Dedup(UsagesNamed(rs, r[i].name))) else None)
  {
    var css := Combine(files);
    var scss := Harvest(rs);
    CombineContents(files);
    HarvestContents(rs);
    DedupSound(RecordNames(rs));
    MergedNamesAreCssKeys(css, scss);
    var r := MergeVarUsages(css, scss);
    forall i | 0 <= i < |r|
      ensures r[i].sourceUsages == if r[i].name in RecordNames(rs) then Some(Dedup(UsagesNamed(rs, r[i].name))) else None
    {
      assert r[i].name == css.keys[i];
      assert r[i].name in scss.entries <==> r[i].name in scss.keys;
      if r[i].name in scss.entries {
        assert HoldsUsagesOf(scss, rs, r[i].name);
      }
    }
  }
}
