/**
 * `scssVarUsages`: scan SCSS sources line by line for declarations, list the
 * `var()` calls in each declared value with `grabVars`, and gather, per
 * variable name, the distinct places it is used. The directory walk and file
 * reads are replaced by a list of files given with their contents.
 */
module ScssVarUsages {
  import opened Wrappers
  import opened JsStrings
  import opened Sequences
  import opened JsObjects
  import opened VarSpans
  import opened VarArgs

  // ---------------------------------------------------------------------------
  // grabVars

  /**
   * `grabVars(value)`: one record per `var()` call in discovery order, its name
   * and its default value (the remaining trimmed comma pieces joined with `,`).
   * Each turn removes the call's `var(`, `)` and name from the text, so the
   * loop ends.
   */
  method GrabVars(value: string) returns (lineVars: seq<Occurrence>)
    ensures lineVars == Occurrences(value)
  {
    var remaining := value;
    lineVars := [];
    var m := BalancedVar(remaining);
    assert [] + Occurrences(remaining) == Occurrences(remaining);
    while m.Some?
      invariant m == BalancedVar(remaining)
      invariant Occurrences(value) == lineVars + Occurrences(remaining)
      decreases |remaining|
    {
      var call := m.value;
      var o := ParseOccurrence(call.body);
      ScanStep(value, lineVars, remaining, call);
      lineVars := lineVars + [o];
      remaining := Remainder(call, o.name);
      m := BalancedVar(remaining);
    }
    assert Occurrences(remaining) == [];
    assert Occurrences(value) == lineVars by {
      assert lineVars + [] == lineVars;
    }
  }

  /** A value without a `var()` call yields no record, and one with a call yields at least one. */
  lemma GrabVarsEmpty(value: string)
    ensures Occurrences(value) == [] <==> !HasVarCall(value)
  {
    VarCallFoundIff(value);
  }

  // ---------------------------------------------------------------------------
  // The declaration pattern `^\s*([\w\-]+): (.*)`

  /** The end of the longest run of word characters and hyphens in `s` starting at `i`. */
  function WordEnd(s: string, i: nat): (j: nat)
    requires i <= |s|
    ensures i <= j <= |s|
    ensures forall k :: i <= k < j ==> IsWordOrHyphen(s[k])
    ensures j == |s| || !IsWordOrHyphen(s[j])
    decreases |s| - i
  {
    if i == |s| || !IsWordOrHyphen(s[i]) then i else WordEnd(s, i + 1)
  }

  /** What `.*` matches: the text up to the first line terminator. */
  function UpToLineEnd(s: string): (r: string)
    ensures |r| <= |s| && r == s[..|r|]
    ensures forall k :: 0 <= k < |r| ==> !IsLineTerminator(r[k])
    ensures |r| == |s| || IsLineTerminator(s[|r|])
  {
    if s == [] || IsLineTerminator(s[0]) then [] else [s[0]] + UpToLineEnd(s[1..])
  }

  /** The two groups the pattern captures. */
  datatype Declaration = Declaration(property: string, value: string)

  /**
   * The pattern matches `line` with the property at `line[i..j]`: whitespace
   * before `i`, word characters and hyphens from `i` to `j`, then `": "`.
   */
  predicate MatchesAt(line: string, i: nat, j: nat) {
    && i < j && j + 2 <= |line|
    && (forall k :: 0 <= k < i ==> IsWhitespace(line[k]))
    && (forall k :: i <= k < j ==> IsWordOrHyphen(line[k]))
    && line[j] == ':' && line[j + 1] == ' '
  }

  /** Where the property starts: after the leading whitespace. */
  function PropertyStart(line: string): (i: nat)
    ensures i <= |line|
    ensures forall k :: 0 <= k < i ==> IsWhitespace(line[k])
    ensures i == |line| || !IsWhitespace(line[i])
  {
    |line| - |TrimStart(line)|
  }

  /** Where the property ends: after the longest run of word characters and hyphens. */
  function PropertyEnd(line: string): (j: nat)
    ensures PropertyStart(line) <= j <= |line|
    ensures forall k :: PropertyStart(line) <= k < j ==> IsWordOrHyphen(line[k])
    ensures j == |line| || !IsWordOrHyphen(line[j])
  {
    WordEnd(line, PropertyStart(line))
  }

  /** Whitespace and identifier characters are disjoint, so the pattern can match in one way only. */
  lemma MatchIsUnique(line: string, i: nat, j: nat)
    requires MatchesAt(line, i, j)
    ensures i == PropertyStart(line) && j == PropertyEnd(line)
  {
    var i0 := PropertyStart(line);
    assert i <= i0 by {
      assert forall k :: 0 <= k < i ==> IsWhitespace(line[k]);
    }
    assert i == i0 by {
      assert IsWordOrHyphen(line[i]);
    }
    var j0 := PropertyEnd(line);
    assert j <= j0 by {
      assert !IsWordOrHyphen(line[j]);
    }
  }

  /** The pattern can match only with the property where `PropertyStart` and `PropertyEnd` put it. */
  lemma MatchOnlyAt(line: string)
    ensures forall a, b :: MatchesAt(line, a, b) ==> a == PropertyStart(line) && b == PropertyEnd(line)
  {
    forall a, b | MatchesAt(line, a, b) ensures a == PropertyStart(line) && b == PropertyEnd(line) {
      MatchIsUnique(line, a, b);
    }
  }

  /** `cssValueRgx.exec(line)`: the captured property and value, or `None` when the line does not match. */
  function ParseLine(line: string): Option<Declaration> {
    var i := PropertyStart(line);
    var j := PropertyEnd(line);
    if MatchesAt(line, i, j) then
      Some(Declaration(line[i..j], UpToLineEnd(line[j + 2..])))
    else
      None
  }

  /** A line yields a declaration exactly when the pattern matches it somewhere. */
  lemma ParseLineMatches(line: string)
    ensures ParseLine(line).None? <==> forall i, j :: !MatchesAt(line, i, j)
  {
    MatchOnlyAt(line);
  }

  /** The declaration a line yields is the one captured by the only match there is. */
  lemma ParseLineCaptures(line: string)
    requires ParseLine(line).Some?
    ensures var i := PropertyStart(line);
      var j := PropertyEnd(line);
      && MatchesAt(line, i, j)
      && ParseLine(line).value == Declaration(line[i..j], UpToLineEnd(line[j + 2..]))
      && forall a, b :: MatchesAt(line, a, b) ==> a == i && b == j
  {
    MatchOnlyAt(line);
  }

  // ---------------------------------------------------------------------------
  // Usage records

  /** A source file, given with its path and contents instead of being read from disk. */
  datatype SourceFile = SourceFile(path: string, content: string)

  /** A usage as stored under a name; equality is the shallow comparison of its four fields. */
  datatype ScssUsage = ScssUsage(file: string, lineNumber: nat, property: string, defaultValue: string)

  /** The `{usages: [...]}` object stored per name. */
  datatype ScssVar = ScssVar(usages: seq<ScssUsage>)

  datatype Record = Record(name: string, usage: ScssUsage)

  /** The lines of a file: its contents split at `\n`. */
  function Lines(f: SourceFile): (r: seq<string>)
    ensures |r| >= 1
  {
    Split(f.content, '\n')
  }

  /**
   * The records of a line read with counter value `lineNumber`: one per call in
   * the declared value, in order; none when the line is no declaration.
   */
  function LineRecords(path: string, lineNumber: nat, line: string): seq<Record> {
    match ParseLine(line)
    case None => []
    case Some(d) => DeclarationRecords(path, lineNumber, d)
  }

  /** The records of a declaration: one per call in its value, in order. */
  function DeclarationRecords(path: string, lineNumber: nat, d: Declaration): seq<Record> {
    var os := Occurrences(d.value);
    seq(|os|, k requires 0 <= k < |os| => Record(os[k].name, ScssUsage(path, lineNumber, d.property, os[k].defaultValue)))
  }

  /** A declaration line has one record per call in its value, each naming the call and the property. */
  lemma LineRecordsOf(path: string, lineNumber: nat, line: string)
    requires ParseLine(line).Some?
    ensures var d := ParseLine(line).value;
      var os := Occurrences(d.value);
      && |LineRecords(path, lineNumber, line)| == |os|
      && forall k :: 0 <= k < |os| ==>
        LineRecords(path, lineNumber, line)[k] == Record(os[k].name, ScssUsage(path, lineNumber, d.property, os[k].defaultValue))
  {
  }

  /**
   * The records of the lines of a file, in order. The 0-based line `i` is read
   * with line number `i + 2`: the counter starts at 1 and is incremented before
   * the line is read.
   */
  function LinesRecords(path: string, lines: seq<string>): seq<Record> {
    if lines == [] then []
    else LinesRecords(path, lines[..|lines| - 1]) + LineRecords(path, |lines| + 1, lines[|lines| - 1])
  }

  /** The records of every file, in order. */
  function AllRecords(files: seq<SourceFile>): seq<Record> {
    if files == [] then []
    else AllRecords(files[..|files| - 1]) + LinesRecords(files[|files| - 1].path, Lines(files[|files| - 1]))
  }

  /** One record into the map: create the entry when missing, push the usage unless it is already listed. */
  function AddUsage(all: Dict<ScssVar>, r: Record): (d: Dict<ScssVar>)
    requires all.Valid()
    ensures d.Valid()
    ensures d.keys == if r.name in all.entries then all.keys else all.keys + [r.name]
    ensures forall n :: n != r.name ==> (n in d.entries <==> n in all.entries)
    ensures forall n :: n != r.name && n in all.entries ==> d.entries[n] == all.entries[n]
    ensures r.name in d.entries
    ensures var before := if r.name in all.entries then all.entries[r.name].usages else [];
      d.entries[r.name].usages == if r.usage in before then before else before + [r.usage]
  {
    var all' := if r.name !in all.entries then all.Put(r.name, ScssVar([])) else all;
    var usages := all'.entries[r.name].usages;
    if r.usage in usages then all' else all'.Put(r.name, ScssVar(usages + [r.usage]))
  }

  /** The map after the records, taken in order, are added to `acc`. */
  function AddAll(acc: Dict<ScssVar>, rs: seq<Record>): (d: Dict<ScssVar>)
    requires acc.Valid()
    ensures d.Valid()
  {
    if rs == [] then acc else AddUsage(AddAll(acc, rs[..|rs| - 1]), rs[|rs| - 1])
  }

  /** Adding one more record of a list. */
  lemma AddAllStep(acc: Dict<ScssVar>, rs: seq<Record>, j: nat)
    requires acc.Valid() && j < |rs|
    ensures AddAll(acc, rs[..j + 1]) == AddUsage(AddAll(acc, rs[..j]), rs[j])
  {
    assert rs[..j + 1][..j] == rs[..j];
  }

  /** Adding two runs of records is adding their concatenation. */
  lemma {:induction false} AddAllAppend(acc: Dict<ScssVar>, a: seq<Record>, b: seq<Record>)
    requires acc.Valid()
    ensures AddAll(acc, a + b) == AddAll(AddAll(acc, a), b)
  {
    if b != [] {
      var b' := b[..|b| - 1];
      assert (a + b)[..|a + b| - 1] == a + b';
      AddAllAppend(acc, a, b');
    } else {
      assert a + b == a;
    }
  }

  /** The map `scssVarUsages` builds from a list of records. */
  function Harvest(rs: seq<Record>): (d: Dict<ScssVar>)
    ensures d.Valid()
  {
    AddAll(Empty(), rs)
  }

  function RecordNames(rs: seq<Record>): (r: seq<string>)
    ensures |r| == |rs| && forall k :: 0 <= k < |rs| ==> r[k] == rs[k].name
  {
    seq(|rs|, k requires 0 <= k < |rs| => rs[k].name)
  }

  /** The usages recorded under `name`, in order, repeats included. */
  function UsagesNamed(rs: seq<Record>, name: string): seq<ScssUsage> {
    if rs == [] then []
    else UsagesNamed(rs[..|rs| - 1], name) + (if rs[|rs| - 1].name == name then [rs[|rs| - 1].usage] else [])
  }

  /** A name never recorded has no usages. */
  lemma {:induction false} NoNameNoUsages(rs: seq<Record>, name: string)
    requires name !in RecordNames(rs)
    ensures UsagesNamed(rs, name) == []
  {
    if rs != [] {
      var init := rs[..|rs| - 1];
      assert RecordNames(rs)[..|init|] == RecordNames(init);
      NoNameNoUsages(init, name);
    }
  }

  /** The map holds, under a name, the distinct usages recorded for it, in order of first appearance. */
  predicate HoldsUsagesOf(d: Dict<ScssVar>, rs: seq<Record>, n: string)
    requires n in d.entries
  {
    d.entries[n].usages == Dedup(UsagesNamed(rs, n))
  }

  /** The names are listed in order of first use. */
  lemma {:induction false} HarvestKeys(rs: seq<Record>)
    ensures Harvest(rs).keys == Dedup(RecordNames(rs))
  {
    if rs != [] {
      var init := rs[..|rs| - 1];
      var r := rs[|rs| - 1];
      HarvestKeys(init);
      assert RecordNames(rs)[..|rs| - 1] == RecordNames(init);
      var before := Harvest(init);
      assert Harvest(rs) == AddUsage(before, r);
      assert r.name in before.entries <==> r.name in before.keys;
    }
  }

  /** One record more: its usage joins its name's list unless already there, every other entry stays. */
  lemma AddUsageEntries(before: Dict<ScssVar>, init: seq<Record>, r: Record, n: string)
    requires before.Valid() && before.keys == Dedup(RecordNames(init))
    requires forall m :: m in before.entries ==> HoldsUsagesOf(before, init, m) && |before.entries[m].usages| > 0
    requires n in AddUsage(before, r).entries
    ensures AddUsage(before, r).entries[n].usages == Dedup(UsagesNamed(init, n) + (if r.name == n then [r.usage] else []))
    ensures |AddUsage(before, r).entries[n].usages| > 0
  {
    if n == r.name {
      if n !in before.entries {
        DedupSound(RecordNames(init));
        NoNameNoUsages(init, n);
      }
      var us := UsagesNamed(init, n) + [r.usage];
      assert us[..|us| - 1] == UsagesNamed(init, n);
    } else {
      assert UsagesNamed(init, n) + [] == UsagesNamed(init, n);
    }
  }

  /** What the map says about a name it holds survives the last record, given that it held before it. */
  lemma HarvestStep(rs: seq<Record>, n: string)
    requires rs != []
    requires var before := Harvest(rs[..|rs| - 1]);
      forall m :: m in before.entries ==> HoldsUsagesOf(before, rs[..|rs| - 1], m) && |before.entries[m].usages| > 0
    requires n in Harvest(rs).entries
    ensures HoldsUsagesOf(Harvest(rs), rs, n)
    ensures |Harvest(rs).entries[n].usages| > 0
  {
    var init := rs[..|rs| - 1];
    HarvestKeys(init);
    AddUsageEntries(Harvest(init), init, rs[|rs| - 1], n);
  }

  /**
   * What the map holds: the names in order of first use, and under each name its
   * distinct usages in order of first appearance, never an empty list.
   */
  lemma {:induction false} HarvestContents(rs: seq<Record>)
    ensures Harvest(rs).keys == Dedup(RecordNames(rs))
    ensures forall n :: n in Harvest(rs).entries ==> HoldsUsagesOf(Harvest(rs), rs, n)
    ensures forall n :: n in Harvest(rs).entries ==> |Harvest(rs).entries[n].usages| > 0
  {
    HarvestKeys(rs);
    if rs != [] {
      HarvestContents(rs[..|rs| - 1]);
      forall n | n in Harvest(rs).entries
        ensures HoldsUsagesOf(Harvest(rs), rs, n)
        ensures |Harvest(rs).entries[n].usages| > 0
      {
        HarvestStep(rs, n);
      }
    }
  }

  /** No usage is stored twice under a name. */
  lemma UsagesAreDistinct(rs: seq<Record>, n: string)
    requires n in Harvest(rs).entries
    ensures Distinct(Harvest(rs).entries[n].usages)
  {
    HarvestContents(rs);
    DedupSound(UsagesNamed(rs, n));
  }

  // ---------------------------------------------------------------------------
  // scssVarUsages

  /** The body of the innermost `forEach`: one usage into the dictionary. */
  method AddRecord(allVars: Dict<ScssVar>, r: Record) returns (d: Dict<ScssVar>)
    requires allVars.Valid()
    ensures d == AddUsage(allVars, r)
  {
    d := allVars;
    if r.name !in d.entries {
      d := d.Put(r.name, ScssVar([]));
    }
    var usages := d.entries[r.name].usages;
    if r.usage !in usages {
      d := d.Put(r.name, ScssVar(usages + [r.usage]));
    }
  }

  /** One line: match the pattern, list the calls of the value, add one usage per call. */
  method AddLine(allVars: Dict<ScssVar>, path: string, lineNumber: nat, line: string) returns (d: Dict<ScssVar>)
    requires allVars.Valid()
    ensures d == AddAll(allVars, LineRecords(path, lineNumber, line))
  {
    d := allVars;
    var parts := ParseLine(line);
    if parts.Some? {
      var decl := parts.value;
      var lineVars := GrabVars(decl.value);
      ghost var records := LineRecords(path, lineNumber, line);
      LineRecordsOf(path, lineNumber, line);
      for j := 0 to |lineVars|
        invariant d.Valid()
        invariant d == AddAll(allVars, records[..j])
      {
        var r := Record(lineVars[j].name, ScssUsage(path, lineNumber, decl.property, lineVars[j].defaultValue));
        AddAllStep(allVars, records, j);
        d := AddRecord(d, r);
      }
      assert records[..|lineVars|] == records;
    }
  }

  /** Adding the records of one line more of a file. */
  lemma LinesStep(acc: Dict<ScssVar>, path: string, lines: seq<string>, i: nat)
    requires acc.Valid() && i < |lines|
    ensures AddAll(acc, LinesRecords(path, lines[..i + 1]))
      == AddAll(AddAll(acc, LinesRecords(path, lines[..i])), LineRecords(path, i + 2, lines[i]))
  {
    assert lines[..i + 1][..i] == lines[..i];
    AddAllAppend(acc, LinesRecords(path, lines[..i]), LineRecords(path, i + 2, lines[i]));
  }

  /** Adding the records of one file more. */
  lemma FilesStep(files: seq<SourceFile>, f: nat)
    requires f < |files|
    ensures Harvest(AllRecords(files[..f + 1]))
      == AddAll(Harvest(AllRecords(files[..f])), LinesRecords(files[f].path, Lines(files[f])))
  {
    assert files[..f + 1][..f] == files[..f];
    AddAllAppend(Empty(), AllRecords(files[..f]), LinesRecords(files[f].path, Lines(files[f])));
  }

  /** One file: split it into lines and add each, counting lines from 2. */
  method AddFile(allVars: Dict<ScssVar>, file: SourceFile) returns (d: Dict<ScssVar>)
    requires allVars.Valid()
    ensures d == AddAll(allVars, LinesRecords(file.path, Lines(file)))
  {
    d := allVars;
    var scssLines := Split(file.content, '\n');
    var lineNumber := 1;
    for i := 0 to |scssLines|
      invariant lineNumber == i + 1
      invariant d.Valid()
      invariant d == AddAll(allVars, LinesRecords(file.path, scssLines[..i]))
    {
      lineNumber := lineNumber + 1;
      var line := scssLines[i];
      LinesStep(allVars, file.path, scssLines, i);
      d := AddLine(d, file.path, lineNumber, line);
    }
    assert scssLines[..|scssLines|] == scssLines;
  }

  /**
   * `scssVarUsages` over files given in memory: for every file, every line and
   * every call of a declared value, the usage is pushed under the call's name
   * unless an equal usage is there already.
   */
  method ScssVarUsagesOf(files: seq<SourceFile>) returns (allVars: Dict<ScssVar>)
    ensures allVars == Harvest(AllRecords(files))
  {
    allVars := Empty();
    for f := 0 to |files|
      invariant allVars.Valid()
      invariant allVars == Harvest(AllRecords(files[..f]))
    {
      FilesStep(files, f);
      allVars := AddFile(allVars, files[f]);
    }
    assert files[..|files|] == files;
  }
}
