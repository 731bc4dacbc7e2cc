/**
 * How the two splitters relate.  Where no dollar-quote tag is recognised,
 * `split_sql_statements` of TTMS/scripts/apply_schema_verbose.py cuts at the
 * same `;` as the naive split of TTMS/scripts/apply_schema.py; the only
 * difference is that it keeps the empty statements a blank piece before a
 * `;` produces, which the naive split drops.
 */
module SplitterAgreement {
  import opened PyStr
  import opened VerboseSplitter
  import opened VerboseSplitterFacts
  import opened NaiveSplitter

  /** The statements that are not empty, in order. */
  function FilterNonEmpty(xs: seq<string>): seq<string> {
    if xs == [] then []
    else
      var last := xs[|xs| - 1];
      FilterNonEmpty(xs[..|xs| - 1]) + (if last != [] then [last] else [])
  }

  lemma {:induction false} FilterNonEmptyAppend(a: seq<string>, b: seq<string>)
    ensures FilterNonEmpty(a + b) == FilterNonEmpty(a) + FilterNonEmpty(b)
    decreases |b|
  {
    if b == [] {
      assert a + b == a;
    } else {
      var b' := b[..|b| - 1];
      assert (a + b)[..|a + b| - 1] == a + b';
      FilterNonEmptyAppend(a, b');
    }
  }

  /** Dropping the empty strings after stripping every piece is the
      comprehension `[s.strip() for s in pieces if s.strip()]`. */
  lemma {:induction false} FilterStripAll(xs: seq<string>)
    ensures FilterNonEmpty(StripAll(xs)) == StrippedNonBlank(xs)
    decreases |xs|
  {
    if xs != [] {
      var init := xs[..|xs| - 1];
      var last := xs[|xs| - 1];
      FilterStripAll(init);
      FilterNonEmptyAppend(StripAll(init), [Strip(last)]);
      assert [Strip(last)][..0] == [];
    }
  }

  /** The verbose result on the pieces of a split, with empty statements
      removed, is the naive comprehension on the same pieces. */
  lemma AgreeOnPieces(p: seq<string>)
    requires |p| > 0
    ensures FilterNonEmpty(StripAll(p[..|p| - 1]) + Trailing(p[|p| - 1])) == StrippedNonBlank(p)
  {
    var init := p[..|p| - 1];
    var last := p[|p| - 1];
    FilterNonEmptyAppend(StripAll(init), Trailing(last));
    FilterStripAll(init);
    if Strip(last) != [] {
      assert Trailing(last)[..0] == [];
    }
  }

  /** Where no tag is recognised, the verbose splitter's statements with the
      empty ones removed are exactly the naive split's statements. */
  lemma AgreeWithoutTags(s: string)
    requires NoTagFrom(s, 0)
    ensures FilterNonEmpty(Split(s)) == NaiveSplit(s)
  {
    NoTagSplit(s);
    AgreeOnPieces(SplitOn(s, ';'));
  }

  /** In particular for every script without `$`. */
  lemma AgreeWithoutDollar(s: string)
    requires '$' !in s
    ensures FilterNonEmpty(Split(s)) == NaiveSplit(s)
  {
    DollarFreeHasNoTag(s);
    AgreeWithoutTags(s);
  }

  /** The verbose splitter's post-processing, applied to the text the naive
      script submits, gives the statement back. */
  lemma FinishUndoesSubmitted(sql: string, k: nat)
    requires k < |NaiveSplit(sql)|
    ensures Finish(Submitted(NaiveSplit(sql)[k])) == NaiveSplit(sql)[k]
  {
    SubmittedStatement(sql, k);
  }
}
