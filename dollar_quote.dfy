/**
 * Recognition of a PostgreSQL dollar-quote tag (`$name$`, section 4.1.2.4 of
 * the PostgreSQL documentation, "Dollar-Quoted String Constants") as the
 * splitter in TTMS/scripts/apply_schema_verbose.py does it: a `$`, then a
 * maximal run of alphanumeric characters that must not be empty, then `$`.
 */
module DollarQuote {
  import opened Wrappers
  import opened PyStr

  /** A well-formed tag: `$`, one or more alphanumerics, `$`. */
  predicate IsTag(t: string) {
    && |t| >= 3
    && t[0] == '$' && t[|t| - 1] == '$'
    && forall k :: 0 < k < |t| - 1 ==> IsAlnum(t[k])
  }

  /** Where the inner scan `while j < len and s[j].isalnum()` stops when
      started at `k` (see `AlnumRunEndSpec`). */
  function AlnumRunEnd(s: string, k: nat): (r: nat)
    requires k <= |s|
    ensures k <= r <= |s|
    decreases |s| - k
  {
    if k < |s| && IsAlnum(s[k]) then AlnumRunEnd(s, k + 1) else k
  }

  /** The scan stops at the end of the maximal alphanumeric run from `k`. */
  lemma {:induction false} AlnumRunEndSpec(s: string, k: nat)
    requires k <= |s|
    ensures var r := AlnumRunEnd(s, k);
      && (forall m :: k <= m < r ==> IsAlnum(s[m]))
      && (r == |s| || !IsAlnum(s[r]))
    decreases |s| - k
  {
    if k < |s| && IsAlnum(s[k]) {
      AlnumRunEndSpec(s, k + 1);
    }
  }

  /** The tag that starts at position `i`, if the scan recognises one there
      (see `TagAtIff`). */
  function TagAt(s: string, i: nat): (r: Option<string>)
    requires i < |s|
    ensures r.Some? ==> 3 <= |r.value| && i + |r.value| <= |s|
  {
    if s[i] != '$' then None
    else
      var j := AlnumRunEnd(s, i + 1);
      if j > i + 1 && j < |s| && s[j] == '$' then Some(s[i..j + 1]) else None
  }

  /** A tag is recognised at `i` exactly when a well-formed tag is a prefix of
      the text from `i`; the recognised tag is then that one. */
  lemma TagAtIff(s: string, i: nat, t: string)
    requires i < |s|
    ensures TagAt(s, i) == Some(t) <==> IsTag(t) && i + |t| <= |s| && s[i..i + |t|] == t
  {
    if s[i] == '$' {
      AlnumRunEndSpec(s, i + 1);
    }
    if IsTag(t) && i + |t| <= |s| && s[i..i + |t|] == t {
      var e := i + |t| - 1;
      assert s[e] == t[|t| - 1];
      assert forall m :: i + 1 <= m < e ==> s[m] == t[m - i];
      AlnumRunEndAt(s, i + 1, e);
    }
  }

  /** The alphanumeric run from `k` ends at `e` when everything in between is
      alphanumeric and `s[e]` is not. */
  lemma {:induction false} AlnumRunEndAt(s: string, k: nat, e: nat)
    requires k <= e < |s|
    requires forall m :: k <= m < e ==> IsAlnum(s[m])
    requires !IsAlnum(s[e])
    ensures AlnumRunEnd(s, k) == e
    decreases e - k
  {
    if k < e {
      AlnumRunEndAt(s, k + 1, e);
    }
  }

  /** `$$` is an ordinary character pair, not an (anonymous) tag. */
  lemma EmptyTagIgnored(s: string, i: nat)
    requires i + 1 < |s| && s[i] == '$' && s[i + 1] == '$'
    ensures TagAt(s, i) == None
  {
  }

  /** An underscore ends the alphanumeric run, so `$body_1$` is no tag at its first `$`. */
  lemma UnderscoreEndsTag(s: string, i: nat)
    requires i + 1 < |s| && s[i] == '$'
    requires exists m :: i < m < |s| && s[m] == '_' && forall n :: i < n < m ==> IsAlnum(s[n])
    ensures TagAt(s, i) == None
  {
    var m :| i < m < |s| && s[m] == '_' && forall n :: i < n < m ==> IsAlnum(s[n]);
    AlnumRunEndAt(s, i + 1, m);
  }

  /** A `$` as the last character cannot start a tag. */
  lemma DollarAtEndIgnored(s: string)
    requires |s| > 0 && s[|s| - 1] == '$'
    ensures TagAt(s, |s| - 1) == None
  {
  }

  /** Position `p` cannot lie inside or just after a potential tag: it is the
      end of the text or holds a character that is neither `$` nor alphanumeric
      (a `;`, for one). */
  predicate Boundary(s: string, p: nat) {
    p <= |s| && (p == |s| || (s[p] != '$' && !IsAlnum(s[p])))
  }

  /** Tag recognition before a boundary only looks at the text before it. */
  lemma TagAtBeforeBoundary(s: string, p: nat, i: nat)
    requires Boundary(s, p) && i < p
    ensures TagAt(s, i) == TagAt(s[..p], i)
    ensures TagAt(s, i).Some? ==> i + |TagAt(s, i).value| <= p
  {
    assert s[..p][i] == s[i];
    if p == |s| {
      assert s[..p] == s;
    } else if s[i] == '$' {
      AlnumRunEndBeforeBoundary(s, p, i + 1);
      var j := AlnumRunEnd(s, i + 1);
      if j < p {
        assert s[..p][j] == s[j];
        assert s[..p][i..j + 1] == s[i..j + 1];
      }
    }
  }

  lemma {:induction false} AlnumRunEndBeforeBoundary(s: string, p: nat, k: nat)
    requires Boundary(s, p) && p < |s| && k <= p
    ensures AlnumRunEnd(s, k) <= p
    ensures AlnumRunEnd(s[..p], k) == AlnumRunEnd(s, k)
    decreases p - k
  {
    if k < p {
      AlnumRunEndBeforeBoundary(s, p, k + 1);
    }
  }
}
