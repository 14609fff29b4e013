/**
 * `balancedVar`: the first `var( … )` call in a value, found by taking the first
 * balanced parenthesised span and, when no `var` token stands right before it,
 * searching its body and then the text after it.
 */
module VarSpans {
  import opened Wrappers
  import opened JsStrings
  import opened BalancedMatch

  /** A `var()` call inside a value: `pre + "var(" + body + ")" + post` is the value. */
  datatype VarCall = VarCall(pre: string, body: string, post: string)

  /** The test `/(?:^|[^\w-])var$/`: `pre` ends with a `var` token not glued to a word character or hyphen. */
  predicate EndsWithVarToken(pre: string) {
    && |pre| >= 3
    && pre[|pre| - 3..] == "var"
    && (|pre| == 3 || !IsWordOrHyphen(pre[|pre| - 4]))
  }

  /** `pre` is empty or its last character cannot continue an identifier. */
  predicate EndsOnBoundary(pre: string) {
    pre == [] || !IsWordOrHyphen(pre[|pre| - 1])
  }

  /** The span `m` itself as a call, its `var` token cut from the end of `pre`. */
  function AtSpan(m: Span): (c: VarCall)
    requires EndsWithVarToken(m.pre)
    ensures c.pre + "var(" + c.body + ")" + c.post == m.pre + "(" + m.body + ")" + m.post
    ensures c.body == m.body && c.post == m.post && |c.pre| + 3 == |m.pre|
    ensures EndsOnBoundary(c.pre)
  {
    var c := VarCall(m.pre[..|m.pre| - 3], m.body, m.post);
    CutVarToken(m.pre);
    c
  }

  lemma CutVarToken(pre: string)
    requires EndsWithVarToken(pre)
    ensures pre[..|pre| - 3] + "var(" == pre + "("
  {
    var n := |pre|;
    assert pre == pre[..n - 3] + pre[n - 3..];
    assert pre[n - 3..] == "var";
    calc {
      pre + "(";
      (pre[..n - 3] + "var") + "(";
      pre[..n - 3] + ("var" + "(");
      { assert "var" + "(" == "var("; }
      pre[..n - 3] + "var(";
    }
  }

  /** Rebuilds a call found in the body of `m` as a call in the whole text of `m`. */
  function InBody(m: Span, inner: VarCall): (c: VarCall)
    requires inner.pre + "var(" + inner.body + ")" + inner.post == m.body
    requires EndsOnBoundary(inner.pre)
    ensures c.pre + "var(" + c.body + ")" + c.post == m.pre + "(" + m.body + ")" + m.post
    ensures c.body == inner.body && EndsOnBoundary(c.pre)
    ensures |c.pre| > |m.pre| && |c.post| > |m.post|
  {
    var c := VarCall(m.pre + "(" + inner.pre, inner.body, inner.post + ")" + m.post);
    assert c.pre + "var(" + c.body + ")" + c.post
        == m.pre + "(" + (inner.pre + "var(" + inner.body + ")" + inner.post) + ")" + m.post;
    c
  }

  /** Rebuilds a call found in the text after `m` as a call in the whole text of `m`. */
  function InPost(m: Span, after: VarCall): (c: VarCall)
    requires after.pre + "var(" + after.body + ")" + after.post == m.post
    requires EndsOnBoundary(after.pre)
    ensures c.pre + "var(" + c.body + ")" + c.post == m.pre + "(" + m.body + ")" + m.post
    ensures c.body == after.body && EndsOnBoundary(c.pre)
    ensures |c.pre| > |m.pre| + |m.body| + 1
  {
    var c := VarCall(m.pre + "(" + m.body + ")" + after.pre, after.body, after.post);
    assert c.pre + "var(" + c.body + ")" + c.post
        == m.pre + "(" + m.body + ")" + (after.pre + "var(" + after.body + ")" + after.post);
    c
  }

  /**
   * `balancedVar(value)`. A result rebuilds the value exactly, has a balanced
   * body, and its `var` token stands at the start or after a character that
   * cannot continue an identifier.
   */
  function BalancedVar(s: string): (r: Option<VarCall>)
    decreases |s|
    ensures r.Some? ==> r.value.pre + "var(" + r.value.body + ")" + r.value.post == s
    ensures r.Some? ==> IsBalanced(r.value.body)
    ensures r.Some? ==> EndsOnBoundary(r.value.pre)
    ensures Balanced(s).None? ==> r.None?
  {
    match Balanced(s)
    case None => None
    case Some(m) =>
      if EndsWithVarToken(m.pre) then
        Some(AtSpan(m))
      else
        match BalancedVar(m.body)
        case Some(inner) => Some(InBody(m, inner))
        case None =>
          match BalancedVar(m.post)
          case Some(after) => Some(InPost(m, after))
          case None => None
  }

  /**
   * When the first balanced span is a `var(` call it is the result, whatever its
   * body holds: an outer call is preferred to the calls nested in it.
   */
  lemma OuterCallPreferred(s: string)
    requires Balanced(s).Some? && EndsWithVarToken(Balanced(s).value.pre)
    ensures BalancedVar(s).Some?
    ensures |BalancedVar(s).value.pre| + 3 == |Balanced(s).value.pre|
    ensures BalancedVar(s).value.body == Balanced(s).value.body
  {
  }

  /**
   * When the first balanced span is not preceded by a `var` token (`myvar(`,
   * `--var(`, `calc(`), it is not the result: any call found starts inside it or
   * after it, and one found in its body is preferred to one after it.
   */
  lemma {:induction false} SearchContinuesPastSpan(s: string)
    requires Balanced(s).Some? && !EndsWithVarToken(Balanced(s).value.pre)
    ensures var m := Balanced(s).value;
      BalancedVar(s).Some? ==> |BalancedVar(s).value.pre| > |m.pre|
    ensures var m := Balanced(s).value;
      BalancedVar(m.body).Some? ==>
        BalancedVar(s).Some? && |BalancedVar(s).value.post| > |m.post|
  {
  }

  /** The `(` and `)` of call `c` are a balanced pair of `s` around its body. */
  predicate IsPairOf(s: string, c: VarCall) {
    var i := |c.pre| + 3;
    var j := i + 1 + |c.body|;
    j < |s| && s[i] == '(' && s[j] == ')' && IsBalanced(s[i + 1..j])
  }

  /**
   * A call found is a balanced `( … )` pair of the value, so a value without
   * such a pair has no call.
   */
  lemma CallIsBalancedPair(s: string, c: VarCall)
    requires BalancedVar(s) == Some(c)
    ensures IsPairOf(s, c)
  {
    PairOfCall(s, c);
  }

  lemma PairOfCall(s: string, c: VarCall)
    requires c.pre + "var(" + c.body + ")" + c.post == s
    ensures var i := |c.pre| + 3; var j := i + 1 + |c.body|;
      && j < |s| && s[i] == '(' && s[j] == ')' && s[i + 1..j] == c.body
  {
    var rest := c.body + ")" + c.post;
    assert s == c.pre + "var(" + rest;
    assert s[|c.pre| + 3] == '(';
    assert s[|c.pre| + 4..] == rest;
    assert rest[|c.body|] == ')' && rest[..|c.body|] == c.body;
  }

  /** A slice of `p + "var(" + b + ")" + q` that starts in `p` and ends in `q`. */
  lemma SliceAroundCall(p: string, b: string, q: string, lo: nat, k: nat)
    requires lo <= |p| && k <= |q|
    ensures var s := p + "var(" + b + ")" + q;
      s[lo..|p| + 5 + |b| + k] == p[lo..] + "var(" + b + ")" + q[..k]
  {
    var s := p + "var(" + b + ")" + q;
    var mid := p[lo..] + "var(" + b + ")" + q[..k];
    assert p == p[..lo] + p[lo..] && q == q[..k] + q[k..];
    assert s == p[..lo] + mid + q[k..];
    assert s[lo..|p| + 5 + |b| + k] == mid;
  }

  /** The first balanced span of a text holding a call opens no later than the call's `(`. */
  lemma FirstSpanNoLater(s: string, p: string, b: string, q: string)
    requires s == p + "var(" + b + ")" + q && IsBalanced(b)
    ensures Balanced(s).Some? && |Balanced(s).value.pre| <= |p| + 3
  {
    var o := |p| + 3;
    PairOfCall(s, VarCall(p, b, q));
    assert s[o + 1..] == b + ")" + q;
    CloseAfterBalanced(b, q, 0);
    assert OpensSpan(s, o);
  }

  /**
   * A balanced span that opens before a call's `(` opens before its `var` token
   * and either closes before the call or encloses all of it.
   */
  lemma SpanAroundOrBefore(s: string, p: string, b: string, q: string, m: Span)
    requires s == p + "var(" + b + ")" + q && IsBalanced(b)
    requires m.pre + "(" + m.body + ")" + m.post == s && IsBalanced(m.body)
    requires |m.pre| < |p| + 3
    ensures |m.pre| < |p|
    ensures |m.pre| + 1 + |m.body| < |p| || |p| + 4 + |b| < |m.pre| + 1 + |m.body|
  {
    var o := |p| + 3;
    var cl := o + 1 + |b|;
    var i := |m.pre|;
    var jc := i + 1 + |m.body|;
    assert cl < |s| && s[o] == '(' && s[o + 1..cl] == b && s[|p|..o] == "var" by {
      PairOfCall(s, VarCall(p, b, q));
      TextBeforeParen(s, p, b, q);
    }
    assert jc < |s| && s[i] == '(' && s[jc] == ')' && s[i + 1..jc] == m.body by {
      SpanParts(s, m);
    }
    if o < jc <= cl {
      NoCloseInsidePair(s, i, o, jc, cl);
    }
  }

  /** A span right after a standalone `var` is the call found, with the token cut from `pre`. */
  lemma VarBeforeSpan(s: string, p: string)
    requires Balanced(s).Some? && Balanced(s).value.pre == p + "var" && EndsOnBoundary(p)
    ensures BalancedVar(s).Some? && |BalancedVar(s).value.pre| == |p|
  {
    var m := Balanced(s).value;
    assert EndsWithVarToken(m.pre) by {
      assert m.pre[|m.pre| - 3..] == "var";
      assert |p| > 0 ==> m.pre[|m.pre| - 4] == p[|p| - 1];
    }
  }

  /** The text before a call's `(` is the text before the call and its `var` token. */
  lemma TextBeforeParen(s: string, p: string, b: string, q: string)
    requires s == p + "var(" + b + ")" + q
    ensures |p| + 3 < |s| && s[..|p| + 3] == p + "var"
  {
    assert s == (p + "var") + ("(" + b + ")" + q);
  }

  /**
   * A call found in the body of the first span gives a result that starts no
   * later than it, whether or not the span itself is a call.
   */
  lemma FoundInBody(s: string, bound: nat)
    requires Balanced(s).Some? && |Balanced(s).value.pre| <= bound
    requires BalancedVar(Balanced(s).value.body).Some?
    requires |Balanced(s).value.pre| + 1 + |BalancedVar(Balanced(s).value.body).value.pre| <= bound
    ensures BalancedVar(s).Some? && |BalancedVar(s).value.pre| <= bound
  {
  }

  /**
   * A call found after the first span gives a result that starts no later
   * than it: the span itself or a call in its body comes first.
   */
  lemma FoundInPost(s: string, bound: nat)
    requires Balanced(s).Some? && |Balanced(s).value.pre| <= bound
    requires var m := Balanced(s).value;
      && BalancedVar(m.post).Some?
      && |m.pre| + |m.body| + 2 + |BalancedVar(m.post).value.pre| <= bound
    ensures BalancedVar(s).Some? && |BalancedVar(s).value.pre| <= bound
  {
    var m := Balanced(s).value;
    if !EndsWithVarToken(m.pre) && BalancedVar(m.body).Some? {
      var inner := BalancedVar(m.body).value;
      assert |inner.pre| < |m.body|;
    }
  }

  /** A suffix of `p + "var(" + b + ")" + q` that starts in `p`. */
  lemma SuffixAroundCall(p: string, b: string, q: string, lo: nat)
    requires lo <= |p|
    ensures (p + "var(" + b + ")" + q)[lo..] == p[lo..] + "var(" + b + ")" + q
  {
    assert p == p[..lo] + p[lo..];
    assert p + "var(" + b + ")" + q == p[..lo] + (p[lo..] + "var(" + b + ")" + q);
  }

  /** A suffix of text that ends on a boundary ends on one too. */
  lemma BoundaryOfSuffix(p: string, lo: nat)
    requires lo <= |p| && EndsOnBoundary(p)
    ensures EndsOnBoundary(p[lo..])
  {
    if lo < |p| {
      assert p[lo..][|p| - lo - 1] == p[|p| - 1];
    }
  }

  /** A span that closes before a call's `var` token leaves the call in its `post`. */
  lemma CallInPost(s: string, p: string, b: string, q: string, m: Span)
    requires s == p + "var(" + b + ")" + q
    requires m.pre + "(" + m.body + ")" + m.post == s
    requires |m.pre| + 1 + |m.body| < |p| && EndsOnBoundary(p)
    ensures m.post == p[|m.pre| + |m.body| + 2..] + "var(" + b + ")" + q
    ensures EndsOnBoundary(p[|m.pre| + |m.body| + 2..]) && |m.post| < |s|
  {
    SpanParts(s, m);
    BoundaryOfSuffix(p, |m.pre| + |m.body| + 2);
    SuffixAroundCall(p, b, q, |m.pre| + |m.body| + 2);
  }

  /** A span that opens before a call's `var` token and closes after the call holds it in its body. */
  lemma CallInBody(s: string, p: string, b: string, q: string, m: Span)
    requires s == p + "var(" + b + ")" + q
    requires m.pre + "(" + m.body + ")" + m.post == s
    requires |m.pre| < |p| && |p| + 4 + |b| < |m.pre| + 1 + |m.body| && EndsOnBoundary(p)
    ensures var k := |m.pre| + |m.body| - |p| - |b| - 4;
      k <= |q| && m.body == p[|m.pre| + 1..] + "var(" + b + ")" + q[..k]
    ensures EndsOnBoundary(p[|m.pre| + 1..]) && |m.body| < |s|
  {
    SpanParts(s, m);
    BoundaryOfSuffix(p, |m.pre| + 1);
    SliceAroundCall(p, b, q, |m.pre| + 1, |m.pre| + |m.body| - |p| - |b| - 4);
  }

  /**
   * The search finds a call wherever one stands: when `var(` follows a boundary
   * and a balanced body and `)` follow it, some call is found, and it starts
   * no later than this one.
   */
  lemma {:induction false} CallIsFound(s: string, p: string, b: string, q: string)
    requires s == p + "var(" + b + ")" + q && EndsOnBoundary(p) && IsBalanced(b)
    ensures BalancedVar(s).Some? && |BalancedVar(s).value.pre| <= |p|
    decreases |s|
  {
    FirstSpanNoLater(s, p, b, q);
    var m := Balanced(s).value;
    if |m.pre| == |p| + 3 {
      assert m.pre == p + "var" by {
        SpanParts(s, m);
        TextBeforeParen(s, p, b, q);
      }
      VarBeforeSpan(s, p);
    } else {
      SpanAroundOrBefore(s, p, b, q, m);
      if |m.pre| + 1 + |m.body| < |p| {
        CallInPost(s, p, b, q, m);
        CallIsFound(m.post, p[|m.pre| + |m.body| + 2..], b, q);
        FoundInPost(s, |p|);
      } else {
        CallInBody(s, p, b, q, m);
        CallIsFound(m.body, p[|m.pre| + 1..], b, q[..|m.pre| + |m.body| - |p| - |b| - 4]);
        FoundInBody(s, |p|);
      }
    }
  }

  /**
   * `s` holds a `var(` call anywhere: the token starts at `k` on a boundary,
   * and a balanced body runs from after `var(` up to the `)` at `j`.
   */
  ghost predicate HasVarCall(s: string) {
    exists k: nat, j: nat :: k + 4 <= j < |s| && s[k..k + 4] == "var(" && s[j] == ')'
      && EndsOnBoundary(s[..k]) && IsBalanced(s[k + 4..j])
  }

  /** The pieces of a call as slices of the text it rebuilds. */
  lemma CallSlices(s: string, c: VarCall)
    requires c.pre + "var(" + c.body + ")" + c.post == s
    ensures var k := |c.pre|; var j := k + 4 + |c.body|;
      && j < |s| && s[..k] == c.pre && s[k..k + 4] == "var(" && s[j] == ')' && s[k + 4..j] == c.body
  {
    assert s == c.pre + ("var(" + c.body + ")" + c.post);
    assert s[|c.pre|..] == "var(" + c.body + ")" + c.post;
    PairOfCall(s, c);
  }

  /** A text rebuilt from the slices around a `var(` token and a `)`. */
  lemma SlicesRebuild(s: string, k: nat, j: nat)
    requires k + 4 <= j < |s| && s[k..k + 4] == "var(" && s[j] == ')'
    ensures s == s[..k] + "var(" + s[k + 4..j] + ")" + s[j + 1..]
  {
    assert s == s[..k] + s[k..k + 4] + s[k + 4..j] + [s[j]] + s[j + 1..];
  }

  /** A call on a boundary with a balanced body is a call the text holds. */
  lemma CallIsHeld(s: string, c: VarCall)
    requires c.pre + "var(" + c.body + ")" + c.post == s && EndsOnBoundary(c.pre) && IsBalanced(c.body)
    ensures HasVarCall(s)
  {
    CallSlices(s, c);
    var k := |c.pre|;
    var j := k + 4 + |c.body|;
    assert k + 4 <= j < |s| && s[k..k + 4] == "var(" && s[j] == ')' && EndsOnBoundary(s[..k]) && IsBalanced(s[k + 4..j]);
  }

  /** The call `balancedVar` returns is a call the text holds. */
  lemma FoundCallIsHeld(s: string)
    requires BalancedVar(s).Some?
    ensures HasVarCall(s)
  {
    CallIsHeld(s, BalancedVar(s).value);
  }

  /** A call the text holds makes the search succeed. */
  lemma HeldCallIsFound(s: string)
    requires HasVarCall(s)
    ensures BalancedVar(s).Some?
  {
    var k: nat, j: nat :| k + 4 <= j < |s| && s[k..k + 4] == "var(" && s[j] == ')'
      && EndsOnBoundary(s[..k]) && IsBalanced(s[k + 4..j]);
    SlicesRebuild(s, k, j);
    CallIsFound(s, s[..k], s[k + 4..j], s[j + 1..]);
  }

  /**
   * `balancedVar` finds a call exactly when the text holds one: a result is a
   * call of the text, and any call of the text makes the search succeed.
   */
  lemma VarCallFoundIff(s: string)
    ensures BalancedVar(s).Some? <==> HasVarCall(s)
  {
    if BalancedVar(s).Some? {
      FoundCallIsHeld(s);
    }
    if HasVarCall(s) {
      HeldCallIsFound(s);
    }
  }
}
