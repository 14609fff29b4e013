/**
 * A stand-in for the `balanced-match` library as `balanced('(', ')', s)` uses it:
 * the first `(` that has a matching `)`, split into the text before it, the
 * balanced text between the two, and the text after.
 */
module BalancedMatch {
  import opened Wrappers

  datatype Span = Span(pre: string, body: string, post: string)

  /**
   * Reading `t` with `depth` parentheses already open never closes one that is
   * not open, and ends with all of them closed.
   */
  predicate BalancedFrom(t: string, depth: nat)
    decreases |t|
  {
    if t == [] then depth == 0
    else if t[0] == '(' then BalancedFrom(t[1..], depth + 1)
    else if t[0] == ')' then depth > 0 && BalancedFrom(t[1..], depth - 1)
    else BalancedFrom(t[1..], depth)
  }

  predicate IsBalanced(t: string) {
    BalancedFrom(t, 0)
  }

  /**
   * The index in `t` of the `)` that closes a `(` standing just before `t`, when
   * `depth` further parentheses are open.
   */
  function CloseIndex(t: string, depth: nat): (r: Option<nat>)
    decreases |t|
    ensures r.Some? ==> r.value < |t| && t[r.value] == ')' && BalancedFrom(t[..r.value], depth)
  {
    if t == [] then None
    else
      var next := if t[0] == '(' then depth + 1 else if t[0] == ')' then depth - 1 else depth;
      if t[0] == ')' && depth == 0 then Some(0)
      else
        match CloseIndex(t[1..], next)
        case None => None
        case Some(j) =>
          assert t[..j + 1][1..] == t[1..][..j];
          Some(j + 1)
  }

  /** Without a result, no `)` of `t` closes the `(` standing before it. */
  lemma {:induction false} CloseIndexNone(t: string, depth: nat)
    requires CloseIndex(t, depth).None?
    ensures forall j :: 0 <= j < |t| && t[j] == ')' ==> !BalancedFrom(t[..j], depth)
  {
    if t != [] {
      var next := if t[0] == '(' then depth + 1 else if t[0] == ')' then depth - 1 else depth;
      CloseIndexNone(t[1..], next);
      forall j | 0 < j < |t| && t[j] == ')'
        ensures !BalancedFrom(t[..j], depth)
      {
        assert t[..j][1..] == t[1..][..j - 1];
        assert t[1..][j - 1] == ')';
      }
    }
  }

  /** The `(` at index `i` of `s` has a matching `)`. */
  predicate OpensSpan(s: string, i: nat) {
    i < |s| && s[i] == '(' && CloseIndex(s[i + 1..], 0).Some?
  }

  /** The first index at or after `from` whose `(` has a matching `)`. */
  function FirstOpening(s: string, from: nat): (r: Option<nat>)
    decreases |s| - from
    ensures r.Some? ==> from <= r.value && OpensSpan(s, r.value)
    ensures r.Some? ==> forall i :: from <= i < r.value ==> !OpensSpan(s, i)
    ensures r.None? ==> forall i :: from <= i ==> !OpensSpan(s, i)
  {
    if from >= |s| then None
    else if OpensSpan(s, from) then Some(from)
    else FirstOpening(s, from + 1)
  }

  /**
   * `balanced('(', ')', s)`: the leftmost `(` that has a matching `)`, with the
   * text around the pair. The body is balanced and the three parts rebuild `s`.
   */
  function Balanced(s: string): (r: Option<Span>)
    ensures r.Some? ==> r.value.pre + "(" + r.value.body + ")" + r.value.post == s
    ensures r.Some? ==> IsBalanced(r.value.body)
    ensures r.Some? ==> OpensSpan(s, |r.value.pre|)
    ensures r.Some? ==> forall i :: 0 <= i < |r.value.pre| ==> !OpensSpan(s, i)
    ensures r.None? <==> forall i :: !OpensSpan(s, i)
  {
    match FirstOpening(s, 0)
    case None => None
    case Some(i) =>
      var j := CloseIndex(s[i + 1..], 0).value;
      SpanAt(s, i, j);
      Some(Span(s[..i], s[i + 1..][..j], s[i + 1..][j + 1..]))
  }

  lemma SpanAt(s: string, i: nat, j: nat)
    requires i < |s| && s[i] == '(' && j < |s[i + 1..]| && s[i + 1..][j] == ')'
    ensures s[..i] + "(" + s[i + 1..][..j] + ")" + s[i + 1..][j + 1..] == s
  {
    var t := s[i + 1..];
    assert t == t[..j] + ")" + t[j + 1..];
    assert s == s[..i] + "(" + t;
  }

  /**
   * Without a result there is no balanced parenthesised span anywhere in `s`:
   * no `(` and later `)` enclose balanced text.
   */
  lemma NoSpanMeansNoBalancedPair(s: string)
    requires Balanced(s).None?
    ensures forall i, j :: 0 <= i < j < |s| && s[i] == '(' && s[j] == ')' ==> !IsBalanced(s[i + 1..j])
  {
    forall i, j | 0 <= i < j < |s| && s[i] == '(' && s[j] == ')'
      ensures !IsBalanced(s[i + 1..j])
    {
      assert !OpensSpan(s, i);
      CloseIndexNone(s[i + 1..], 0);
      assert s[i + 1..][j - i - 1] == ')';
      assert s[i + 1..][..j - i - 1] == s[i + 1..j];
    }
  }

  /** A `)` right after text balanced from `depth` is the one that closes the `(` before it all. */
  lemma {:induction false} CloseAfterBalanced(t: string, q: string, depth: nat)
    requires BalancedFrom(t, depth)
    ensures CloseIndex(t + ")" + q, depth) == Some(|t|)
    decreases |t|
  {
    var u := t + ")" + q;
    if t != [] {
      var next := if t[0] == '(' then depth + 1 else if t[0] == ')' then depth - 1 else depth;
      assert u[0] == t[0] && u[1..] == t[1..] + ")" + q;
      CloseAfterBalanced(t[1..], q, next);
    }
  }

  /**
   * A prefix `y` of text balanced from `f` never ends balanced from a deeper
   * `e`: it cannot close the extra parentheses.
   */
  lemma {:induction false} PrefixStaysOpen(y: string, z: string, f: nat, e: nat)
    requires BalancedFrom(y + z, f) && e > f
    ensures !BalancedFrom(y, e)
    decreases |y|
  {
    if y != [] {
      assert (y + z)[0] == y[0] && (y + z)[1..] == y[1..] + z;
      if y[0] == '(' {
        PrefixStaysOpen(y[1..], z, f + 1, e + 1);
      } else if y[0] == ')' {
        PrefixStaysOpen(y[1..], z, f - 1, e - 1);
      } else {
        PrefixStaysOpen(y[1..], z, f, e);
      }
    }
  }

  /**
   * Text that opens a `(` and then reads only a prefix `y` of a balanced text
   * leaves that `(` open, whatever came before it.
   */
  lemma {:induction false} OpenedNotClosed(x: string, y: string, z: string, depth: nat)
    requires IsBalanced(y + z)
    ensures !BalancedFrom(x + "(" + y, depth)
    decreases |x|
  {
    var u := x + "(" + y;
    if x == [] {
      assert u[0] == '(' && u[1..] == y;
      PrefixStaysOpen(y, z, 0, depth + 1);
    } else {
      assert u[0] == x[0] && u[1..] == x[1..] + "(" + y;
      if x[0] == '(' {
        OpenedNotClosed(x[1..], y, z, depth + 1);
      } else if x[0] == ')' {
        if depth > 0 {
          OpenedNotClosed(x[1..], y, z, depth - 1);
        }
      } else {
        OpenedNotClosed(x[1..], y, z, depth);
      }
    }
  }

  /**
   * A `(` before a balanced pair is not closed inside that pair: the text from
   * it to a `)` inside the pair, or to the pair's own `)`, is not balanced.
   */
  lemma NoCloseInsidePair(s: string, i: nat, o: nat, j: nat, cl: nat)
    requires i < o < j <= cl < |s| && s[o] == '(' && IsBalanced(s[o + 1..cl])
    ensures !IsBalanced(s[i + 1..j])
  {
    var y := s[o + 1..j];
    var z := s[j..cl];
    assert s[o + 1..cl] == y + z;
    assert s[i + 1..j] == s[i + 1..o] + "(" + y;
    OpenedNotClosed(s[i + 1..o], y, z, 0);
  }

  /** Where the parts of a span lie in the text they rebuild. */
  lemma SpanParts(s: string, m: Span)
    requires m.pre + "(" + m.body + ")" + m.post == s
    ensures var i := |m.pre|; var j := i + 1 + |m.body|;
      && j < |s| && s[i] == '(' && s[j] == ')'
      && s[..i] == m.pre && s[i + 1..j] == m.body && s[j + 1..] == m.post
  {
    var i := |m.pre|;
    var rest := m.body + ")" + m.post;
    assert s == m.pre + "(" + rest;
    assert s[i + 1..] == rest;
    assert rest[|m.body|] == ')' && rest[..|m.body|] == m.body && rest[|m.body| + 1..] == m.post;
  }
}
