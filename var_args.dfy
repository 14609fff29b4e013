/**
 * What the resolver and the usage harvester read out of the body of a `var()`
 * call, and the scan both run over a value to list every call in it.
 */
module VarArgs {
  import opened Wrappers
  import opened JsStrings
  import opened VarSpans

  /**
   * A reference as the resolution loop reads it: the first comma piece trimmed
   * is the name, the rest re-joined with `,` and then trimmed is the fallback,
   * absent when the body has no comma.
   */
  datatype Reference = Reference(name: string, fallback: Option<string>)

  function ParseReference(body: string): Reference {
    var pieces := Split(body, ',');
    Reference(Trim(pieces[0]), if |pieces| > 1 then Some(Trim(Join(pieces[1..], [',']))) else None)
  }

  /**
   * The name is the trimmed text before the first comma, the fallback the
   * trimmed text after it; without a comma the whole body is the name.
   */
  lemma ParseReferenceParts(body: string)
    ensures FirstIndexOf(body, ',').None? ==> ParseReference(body) == Reference(Trim(body), None)
    ensures FirstIndexOf(body, ',').Some? ==>
      var i := FirstIndexOf(body, ',').value;
      ParseReference(body) == Reference(Trim(body[..i]), Some(Trim(body[i + 1..])))
  {
    SplitAtFirst(body, ',');
  }

  /**
   * A call as the discovery scan and `grabVars` record it: every comma piece is
   * trimmed, the first is the name and the others are joined with `,`.
   */
  datatype Occurrence = Occurrence(name: string, defaultValue: string)

  function TrimAll(pieces: seq<string>): (r: seq<string>)
    ensures |r| == |pieces| && forall k :: 0 <= k < |r| ==> r[k] == Trim(pieces[k])
  {
    seq(|pieces|, k requires 0 <= k < |pieces| => Trim(pieces[k]))
  }

  function ParseOccurrence(body: string): (r: Occurrence)
    ensures r.name == ParseReference(body).name
    ensures ',' !in body ==> r.defaultValue == []
    ensures ',' in body ==> Split(r.defaultValue, ',') == TrimAll(Split(body, ',')[1..])
  {
    var pieces := TrimAll(Split(body, ','));
    SplitAtFirst(body, ',');
    var defaultValue := Join(pieces[1..], [',']);
    if |pieces| > 1 then
      assert pieces[1..] == TrimAll(Split(body, ',')[1..]);
      TrimKeepsOut(Split(body, ','), ',');
      SplitJoin(pieces[1..], ',');
      Occurrence(pieces[0], defaultValue)
    else
      Occurrence(pieces[0], defaultValue)
  }

  /** Trimming takes no character in, so pieces free of `c` stay free of it. */
  lemma TrimKeepsOut(pieces: seq<string>, c: char)
    requires forall k :: 0 <= k < |pieces| ==> c !in pieces[k]
    ensures forall k :: 0 <= k < |pieces| ==> c !in Trim(pieces[k])
  {
    forall k | 0 <= k < |pieces| ensures c !in Trim(pieces[k]) {
      var p := pieces[k];
      var i := |p| - |TrimStart(p)|;
      var t := Trim(p);
      assert t == p[i..i + |t|];
      forall n | 0 <= n < |t| ensures t[n] != c {
        assert t[n] == p[i + n];
      }
    }
  }

  /**
   * The text the scan continues with after a call: the call with its `var(`
   * and `)` and the first occurrence of its name removed.
   */
  function Remainder(c: VarCall, name: string): (r: string)
    ensures |r| <= |c.pre| + |c.body| + |c.post|
  {
    c.pre + RemoveFirst(c.body, name) + c.post
  }

  /**
   * Every call the scan of resolve-value.js and scss-var-usages.js finds, in the
   * order found. The text shrinks by at least `var(` and `)` each time, so the
   * scan ends.
   */
  function Occurrences(s: string): (r: seq<Occurrence>)
    decreases |s|
    ensures BalancedVar(s).None? <==> r == []
    ensures 4 * |r| <= |s|
  {
    match BalancedVar(s)
    case None => []
    case Some(c) =>
      var o := ParseOccurrence(c.body);
      [o] + Occurrences(Remainder(c, o.name))
  }

  /** The names of the calls, in the order found. */
  function Names(os: seq<Occurrence>): (r: seq<string>)
    ensures |r| == |os| && forall k :: 0 <= k < |os| ==> r[k] == os[k].name
  {
    seq(|os|, k requires 0 <= k < |os| => os[k].name)
  }

  /** The scan takes the first call and goes on with the text that remains, which is shorter. */
  lemma OccurrencesUnfold(s: string, c: VarCall)
    requires BalancedVar(s) == Some(c)
    ensures Occurrences(s) == [ParseOccurrence(c.body)] + Occurrences(Remainder(c, ParseOccurrence(c.body).name))
    ensures |Remainder(c, ParseOccurrence(c.body).name)| < |s|
  {
    assert |s| == |c.pre| + |c.body| + |c.post| + 5 by {
      assert s == c.pre + "var(" + c.body + ")" + c.post;
    }
  }

  /** The invariant of the scan survives taking one call. */
  lemma ScanStep(value: string, found: seq<Occurrence>, remaining: string, c: VarCall)
    requires Occurrences(value) == found + Occurrences(remaining)
    requires BalancedVar(remaining) == Some(c)
    ensures Occurrences(value) == (found + [ParseOccurrence(c.body)]) + Occurrences(Remainder(c, ParseOccurrence(c.body).name))
    ensures |Remainder(c, ParseOccurrence(c.body).name)| < |remaining|
  {
    var o := ParseOccurrence(c.body);
    var tail := Occurrences(Remainder(c, o.name));
    OccurrencesUnfold(remaining, c);
    calc {
      Occurrences(value);
      found + Occurrences(remaining);
      found + ([o] + tail);
      { AppendAssoc(found, o, tail); }
      (found + [o]) + tail;
    }
  }

  lemma AppendAssoc<T>(a: seq<T>, x: T, b: seq<T>)
    ensures a + ([x] + b) == (a + [x]) + b
  {
  }
}
