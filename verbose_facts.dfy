/**
 * What `split_sql_statements` (TTMS/scripts/apply_schema_verbose.py) guarantees,
 * proved about its specification `VerboseSplitter.Run` / `Split`.
 */
module VerboseSplitterFacts {
  import opened Wrappers
  import opened PyStr
  import opened DollarQuote
  import opened VerboseSplitter

  // ---------------------------------------------------------------------------
  // One step

  /** Inside a region a step never cuts a statement; it leaves the region only
      on the identical tag, skipping that tag; a different recognised tag is
      not skipped: only its `$` is appended and the scan moves on by one. */
  lemma StepInRegion(s: string, i: nat, st: Scan)
    requires i < |s| && st.tag.Some?
    ensures var next := Step(s, i, st);
      && next.1.chunks == st.chunks
      && (next.1.tag.None? ==> TagAt(s, i) == st.tag && next.0 == i + |st.tag.value|)
      && (next.1.tag.Some? ==> next.1.tag == st.tag && next.0 == i + 1 && next.1.cur == st.cur + [s[i]])
      && (TagAt(s, i).Some? && TagAt(s, i) != st.tag ==>
            next == (i + 1, Scan(st.chunks, st.cur + ['$'], st.tag)))
  {
    if TagAt(s, i).Some? {
      TagAtIff(s, i, TagAt(s, i).value);
    }
  }

  /** Since a rejected tag is re-scanned from its second character, tags may
      overlap: inside `$a$`, the text `$b$a$` closes the region, its `$b` being
      taken as ordinary characters. */
  lemma OverlappingTagCloses(s: string, i: nat, st: Scan)
    requires i + 5 <= |s| && s[i..i + 5] == "$b$a$" && st.tag == Some("$a$")
    ensures Run(s, i, st) == Run(s, i + 5, Scan(st.chunks, st.cur + "$b$a$", None))
  {
    OverlappingTags(s, i);
    RunAppends(s, i, st);
    var st1 := Scan(st.chunks, st.cur + "$", st.tag);
    RunAppends(s, i + 1, st1);
    var st2 := Scan(st.chunks, st.cur + "$b", st.tag);
    assert st1.cur + [s[i + 1]] == st2.cur;
    RunCloses(s, i + 2, st2);
    assert st2.cur + "$a$" == st.cur + "$b$a$";
  }

  /** The tags seen while scanning `$b$a$`. */
  lemma OverlappingTags(s: string, i: nat)
    requires i + 5 <= |s| && s[i..i + 5] == "$b$a$"
    ensures s[i] == '$' && s[i + 1] == 'b'
    ensures TagAt(s, i) == Some("$b$") && TagAt(s, i + 1) == None && TagAt(s, i + 2) == Some("$a$")
  {
    assert s[i] == '$' && s[i + 1] == 'b' && s[i + 2] == '$' && s[i + 3] == 'a' && s[i + 4] == '$';
    assert s[i..i + 3] == "$b$" && s[i + 2..i + 5] == "$a$";
    TagAtIff(s, i, "$b$");
    TagAtIff(s, i + 2, "$a$");
  }

  /** Outside any region a step cuts exactly at a `;`, and the cut piece keeps it. */
  lemma StepOutsideRegion(s: string, i: nat, st: Scan)
    requires i < |s| && st.tag.None?
    ensures var next := Step(s, i, st);
      && (s[i] == ';' <==> |next.1.chunks| == |st.chunks| + 1)
      && (s[i] != ';' ==> next.1.chunks == st.chunks)
      && (s[i] == ';' ==> next == (i + 1, Scan(st.chunks + [st.cur + [';']], [], None)))
      && (next.1.tag.Some? <==> TagAt(s, i).Some?)
  {
    if TagAt(s, i).Some? {
      TagAtIff(s, i, TagAt(s, i).value);
    }
  }

  lemma StepWellFormed(s: string, i: nat, st: Scan)
    requires i < |s| && WellFormed(st)
    ensures WellFormed(Step(s, i, st).1)
  {
    if TagAt(s, i).Some? {
      TagAtIff(s, i, TagAt(s, i).value);
    }
  }

  /** A step appends to the buffer exactly the text it moves over. */
  lemma StepReassembles(s: string, i: nat, st: Scan)
    requires i < |s| && Concat(st.chunks) + st.cur == s[..i]
    ensures var next := Step(s, i, st);
      Concat(next.1.chunks) + next.1.cur == s[..next.0]
  {
    var next := Step(s, i, st);
    var t := TagAt(s, i);
    if t.Some? && (st.tag.None? || st.tag == t) {
      TagAtIff(s, i, t.value);
      assert next.0 == i + |t.value| && next.1.chunks == st.chunks && next.1.cur == st.cur + t.value;
      AppendsText(s, i, next.0, st, next.1);
    } else if s[i] == ';' && st.tag.None? {
      assert next == (i + 1, Scan(st.chunks + [st.cur + [';']], [], None));
      CutsText(s, i, st);
    } else {
      assert next == (i + 1, Scan(st.chunks, st.cur + [s[i]], st.tag));
      AppendsText(s, i, i + 1, st, next.1);
    }
  }

  lemma AppendsText(s: string, i: nat, n: nat, st: Scan, next: Scan)
    requires i < n <= |s| && Concat(st.chunks) + st.cur == s[..i]
    requires next.chunks == st.chunks && next.cur == st.cur + s[i..n]
    ensures Concat(next.chunks) + next.cur == s[..n]
  {
    assert s[..n] == s[..i] + s[i..n];
  }

  lemma CutsText(s: string, i: nat, st: Scan)
    requires i < |s| && s[i] == ';' && Concat(st.chunks) + st.cur == s[..i]
    ensures Concat(st.chunks + [st.cur + [';']]) + [] == s[..i + 1]
  {
    ConcatAppend(st.chunks, st.cur + [';']);
    assert s[..i + 1] == s[..i] + [';'];
  }

  // ---------------------------------------------------------------------------
  // The whole scan

  /** Every state the scan reaches from a well-formed one is well-formed: an
      open tag is always a well-formed tag and every cut piece ends in `;`. */
  lemma {:induction false} RunWellFormed(s: string, i: nat, st: Scan)
    requires i <= |s| && WellFormed(st)
    ensures WellFormed(Run(s, i, st))
    decreases |s| - i
  {
    if i < |s| {
      StepWellFormed(s, i, st);
      var next := Step(s, i, st);
      RunWellFormed(s, next.0, next.1);
    }
  }

  lemma RawSplitWellFormed(s: string)
    ensures WellFormed(RawSplit(s))
  {
    RunWellFormed(s, 0, Start);
  }

  lemma {:induction false} RunReassembles(s: string, i: nat, st: Scan)
    requires i <= |s| && Concat(st.chunks) + st.cur == s[..i]
    ensures Concat(Run(s, i, st).chunks) + Run(s, i, st).cur == s
    decreases |s| - i
  {
    if i == |s| {
      assert s[..i] == s;
    } else {
      StepReassembles(s, i, st);
      var next := Step(s, i, st);
      RunReassembles(s, next.0, next.1);
    }
  }

  /** Every character of the script lands in exactly one place: the cut pieces,
      in order, followed by the final buffer, are the script itself. */
  lemma Reassembles(s: string)
    ensures Concat(RawSplit(s).chunks) + RawSplit(s).cur == s
  {
    assert Concat([]) + [] == s[..0];
    RunReassembles(s, 0, Start);
  }

  /** `t` occurs in `s` at position `k`. */
  predicate OccursAt(t: string, s: string, k: nat) {
    k + |t| <= |s| && s[k..k + |t|] == t
  }

  /** The tag `t` does not occur in `s` at or after position `i`. */
  predicate Absent(t: string, s: string, i: nat) {
    forall k :: i <= k <= |s| ==> !OccursAt(t, s, k)
  }

  /** A region whose tag never occurs again is never closed: no further
      statement is cut and all the remaining text goes into the buffer. */
  lemma {:induction false} RunAbsorbs(s: string, i: nat, st: Scan)
    requires i <= |s| && st.tag.Some? && Absent(st.tag.value, s, i)
    ensures Run(s, i, st) == Scan(st.chunks, st.cur + s[i..], st.tag)
    decreases |s| - i
  {
    if i == |s| {
      assert st.cur + s[i..] == st.cur;
    } else {
      var t := st.tag.value;
      assert !OccursAt(t, s, i);
      TagAtIff(s, i, t);
      var next := Step(s, i, st);
      assert next == (i + 1, Scan(st.chunks, st.cur + [s[i]], st.tag));
      RunAbsorbs(s, i + 1, next.1);
      assert (st.cur + [s[i]]) + s[i + 1..] == st.cur + s[i..];
    }
  }

  // ---------------------------------------------------------------------------
  // Locality: the scan up to a boundary only depends on the text before it

  lemma StepBeforeBoundary(s: string, p: nat, i: nat, st: Scan)
    requires Boundary(s, p) && i < p
    ensures Step(s, i, st) == Step(s[..p], i, st)
    ensures Step(s, i, st).0 <= p
  {
    TagAtBeforeBoundary(s, p, i);
    assert s[..p][i] == s[i];
  }

  /** Scanning up to a boundary `p` and continuing from there is the same as
      scanning straight through. */
  lemma {:induction false} RunThroughBoundary(s: string, p: nat, i: nat, st: Scan)
    requires Boundary(s, p) && i <= p
    ensures Run(s, i, st) == Run(s, p, Run(s[..p], i, st))
    decreases p - i
  {
    if i < p {
      StepBeforeBoundary(s, p, i, st);
      var next := Step(s, i, st);
      RunThroughBoundary(s, p, next.0, next.1);
    }
  }

  /** The scan of a script passes through every boundary `p` in the state the
      scan of the text before `p` ends in. */
  lemma RawSplitThroughBoundary(s: string, p: nat)
    requires Boundary(s, p)
    ensures RawSplit(s) == Run(s, p, RawSplit(s[..p]))
  {
    RunThroughBoundary(s, p, 0, Start);
  }

  /** An unclosed region absorbs the rest of the script: if the text before a
      boundary `p` leaves region `t` open and `t` never occurs from `p` on,
      then nothing more is cut and the rest of the script ends up in the
      single trailing statement. */
  lemma UnclosedRegionAbsorbsRest(s: string, p: nat, t: string)
    requires Boundary(s, p)
    requires RawSplit(s[..p]).tag == Some(t) && Absent(t, s, p)
    ensures RawSplit(s) == Scan(RawSplit(s[..p]).chunks, RawSplit(s[..p]).cur + s[p..], Some(t))
  {
    RawSplitThroughBoundary(s, p);
    RunAbsorbs(s, p, RawSplit(s[..p]));
  }

  // ---------------------------------------------------------------------------
  // Counting the cuts

  /** The `;` at position `q` is outside any dollar region: scanning the text
      before it leaves no region open. */
  predicate TopLevelSemicolon(s: string, q: nat)
    requires q < |s|
  {
    s[q] == ';' && RawSplit(s[..q]).tag.None?
  }

  /** Number of top-level `;` among the first `n` characters. */
  function CountTopLevel(s: string, n: nat): nat
    requires n <= |s|
  {
    if n == 0 then 0
    else CountTopLevel(s, n - 1) + (if TopLevelSemicolon(s, n - 1) then 1 else 0)
  }

  lemma {:induction false} RunWithoutSemicolon(s: string, i: nat, st: Scan)
    requires i <= |s| && forall k :: i <= k < |s| ==> s[k] != ';'
    ensures Run(s, i, st).chunks == st.chunks
    decreases |s| - i
  {
    if i < |s| {
      var next := Step(s, i, st);
      RunWithoutSemicolon(s, next.0, next.1);
    }
  }

  lemma {:induction false} CountTopLevelWithoutSemicolon(s: string, m: nat, n: nat)
    requires m <= n <= |s| && forall k :: m <= k < n ==> s[k] != ';'
    ensures CountTopLevel(s, n) == CountTopLevel(s, m)
    decreases n - m
  {
    if m < n {
      CountTopLevelWithoutSemicolon(s, m, n - 1);
    }
  }

  /** Start of the `;`-free stretch that ends at `n`. */
  function StretchStart(s: string, n: nat): (m: nat)
    requires n <= |s|
    ensures m <= n && (m == 0 || s[m - 1] == ';')
    ensures forall k :: m <= k < n ==> s[k] != ';'
  {
    if n == 0 || s[n - 1] == ';' then n else StretchStart(s, n - 1)
  }

  /** The scan of `s[..n]` for `s[n - 1] == ';'` is the scan of `s[..n - 1]`
      followed by one step on that `;`. */
  lemma RawSplitEndingInSemicolon(s: string, n: nat)
    requires 0 < n <= |s| && s[n - 1] == ';'
    ensures RawSplit(s[..n]) == Step(s[..n], n - 1, RawSplit(s[..n - 1])).1
  {
    var u := s[..n];
    assert u[..n - 1] == s[..n - 1];
    RawSplitThroughBoundary(u, n - 1);
  }

  /** Extending a prefix that ends at a cut point by `;`-free text cuts nothing more. */
  lemma ExtendWithoutSemicolon(s: string, m: nat, n: nat)
    requires m <= n <= |s| && (m == 0 || s[m - 1] == ';')
    requires forall k :: m <= k < n ==> s[k] != ';'
    ensures RawSplit(s[..n]).chunks == RawSplit(s[..m]).chunks
  {
    var u := s[..n];
    if m == 0 {
      RunWithoutSemicolon(u, 0, Start);
      assert s[..0] == [];
    } else {
      var x := RawSplit(s[..m - 1]);
      RawSplitEndingInSemicolon(s, m);
      assert u[..m] == s[..m];
      RawSplitEndingInSemicolon(u, m);
      assert u[..m - 1] == s[..m - 1];
      var y := Step(u, m - 1, x).1;
      assert Step(u[..m], m - 1, x) == Step(u, m - 1, x);
      RawSplitThroughBoundary(u, m - 1);
      assert RawSplit(u) == Run(u, m, y);
      RunWithoutSemicolon(u, m, y);
    }
  }

  /** The pieces cut from the first `n` characters are as many as the
      top-level `;` among them. */
  lemma {:induction false} ChunksOfPrefix(s: string, n: nat)
    requires n <= |s|
    ensures |RawSplit(s[..n]).chunks| == CountTopLevel(s, n)
    decreases n
  {
    if n == 0 {
      assert s[..0] == [];
    } else if s[n - 1] == ';' {
      ChunksOfPrefix(s, n - 1);
      RawSplitEndingInSemicolon(s, n);
      assert s[..n][n - 1] == ';';
      assert s[..n][..n - 1] == s[..n - 1];
    } else {
      var m := StretchStart(s, n);
      ChunksOfPrefix(s, m);
      ExtendWithoutSemicolon(s, m, n);
      CountTopLevelWithoutSemicolon(s, m, n);
    }
  }

  /** The scan cuts exactly as many pieces as the script has top-level `;`. */
  lemma ChunkCount(s: string)
    ensures |RawSplit(s).chunks| == CountTopLevel(s, |s|)
  {
    ChunksOfPrefix(s, |s|);
    assert s[..|s|] == s;
  }

  // ---------------------------------------------------------------------------
  // The returned statements

  lemma {:induction false} PostProcessAppend(a: seq<string>, b: seq<string>)
    ensures PostProcess(a + b) == PostProcess(a) + PostProcess(b)
    decreases |b|
  {
    if b == [] {
      assert a + b == a;
    } else {
      var b' := b[..|b| - 1];
      assert (a + b)[..|a + b| - 1] == a + b';
      PostProcessAppend(a, b');
    }
  }

  /** A cut piece survives the filter, and finishing its stripped form gives the
      piece without its `;`, stripped. */
  lemma FinishCut(c: string)
    requires EndsWith(c, ';')
    ensures Strip(Strip(c)) != []
    ensures Finish(Strip(c)) == Strip(c[..|c| - 1])
  {
    var c' := c[..|c| - 1];
    assert c == c' + [';'];
    StripEndingWithNonSpace(c', ';');
    var x := Strip(c);
    assert x == LStrip(c') + [';'];
    StripSpec(x);
    assert !IsSpace(x[|x| - 1]);
    assert x[..|x| - 1] == LStrip(c');
    StripOfLStrip(c');
  }

  lemma {:induction false} PostProcessCuts(chunks: seq<string>)
    requires forall k :: 0 <= k < |chunks| ==> EndsWith(chunks[k], ';')
    ensures |PostProcess(StripAll(chunks))| == |chunks|
    ensures forall k :: 0 <= k < |chunks| ==>
      && EndsWith(chunks[k], ';')
      && PostProcess(StripAll(chunks))[k] == Strip(chunks[k][..|chunks[k]| - 1])
    decreases |chunks|
  {
    if chunks != [] {
      var init := chunks[..|chunks| - 1];
      var last := chunks[|chunks| - 1];
      PostProcessCuts(init);
      FinishCut(last);
      var x := StripAll(chunks);
      assert x == StripAll(init) + [Strip(last)];
      assert x[..|x| - 1] == StripAll(init);
      var r0 := PostProcess(StripAll(init));
      var r := PostProcess(x);
      assert r == r0 + [Finish(Strip(last))];
      forall k | 0 <= k < |chunks|
        ensures EndsWith(chunks[k], ';') && r[k] == Strip(chunks[k][..|chunks[k]| - 1])
      {
        if k < |init| {
          assert chunks[k] == init[k] && r[k] == r0[k];
        } else {
          assert k == |r0|;
          assert r[k] == Finish(Strip(last));
        }
      }
    }
  }

  lemma PostProcessTrailing(cur: string)
    ensures PostProcess(Trailing(cur)) == if AllSpace(cur) then [] else [Finish(Strip(cur))]
  {
    StripSpec(cur);
    var x := Strip(cur);
    if x != [] {
      StripSpec(x);
      assert [x][..0] == [];
    }
  }

  /** What `split_sql_statements` returns, piece by piece: one statement per cut piece
      (each ends with the `;` that cut it), none dropped, each the piece without its final `;`, stripped; then the
      trailing statement when the final buffer is not blank, with one final
      `;` removed (possible only when the buffer is inside an open region). */
  lemma SplitShape(s: string)
    ensures var raw := RawSplit(s);
      && |Split(s)| == |raw.chunks| + (if AllSpace(raw.cur) then 0 else 1)
      && (forall k :: 0 <= k < |raw.chunks| ==>
            && EndsWith(raw.chunks[k], ';')
            && Split(s)[k] == Strip(raw.chunks[k][..|raw.chunks[k]| - 1]))
      && (!AllSpace(raw.cur) ==> Split(s)[|raw.chunks|] == Finish(Strip(raw.cur)))
  {
    var raw := RawSplit(s);
    RawSplitWellFormed(s);
    PostProcessAppend(StripAll(raw.chunks), Trailing(raw.cur));
    PostProcessCuts(raw.chunks);
    PostProcessTrailing(raw.cur);
  }

  /** The number of statements returned is the number of top-level `;` plus
      one when the text after the last cut is not blank. */
  lemma SplitLength(s: string)
    ensures |Split(s)| == CountTopLevel(s, |s|) + (if AllSpace(RawSplit(s).cur) then 0 else 1)
  {
    SplitShape(s);
    ChunkCount(s);
  }

  // ---------------------------------------------------------------------------
  // Scripts in which no tag is recognised

  /** No dollar-quote tag is recognised anywhere from position `i` on. */
  predicate NoTagFrom(s: string, i: nat) {
    forall k :: i <= k < |s| ==> TagAt(s, k).None?
  }

  /** A script without `$` has no tag. */
  lemma DollarFreeHasNoTag(s: string)
    requires '$' !in s
    ensures NoTagFrom(s, 0)
  {
    forall k | 0 <= k < |s| ensures TagAt(s, k).None? {
      assert s[k] in s;
    }
  }

  /** A script whose `$` signs are never followed by an alphanumeric character
      (so `$$`, `$_x$`, `$ `) has no tag: anonymous `$$ ... $$` bodies are not
      protected. */
  lemma AnonymousDollarsAreNoTags(s: string)
    requires forall k :: 0 <= k < |s| - 1 && s[k] == '$' ==> !IsAlnum(s[k + 1])
    ensures NoTagFrom(s, 0)
  {
  }

  /** The pieces of `p` but the last, each with the `;` that followed it. */
  function Cuts(p: seq<string>): (r: seq<string>)
    requires |p| > 0
  {
    seq(|p| - 1, k requires 0 <= k < |p| - 1 => p[k] + [';'])
  }

  /** Without tags, the scan from a point outside any region cuts at every `;`:
      its pieces are those of Python's `split(';')` on the rest of the text. */
  lemma {:induction false} RunWithoutTags(s: string, i: nat, chunks: seq<string>, cur: string)
    requires i <= |s| && NoTagFrom(s, i) && ';' !in cur
    ensures var p := SplitOn(cur + s[i..], ';');
      Run(s, i, Scan(chunks, cur, None)) == Scan(chunks + Cuts(p), p[|p| - 1], None)
    decreases |s| - i
  {
    if i == |s| {
      var p := SplitOn(cur + s[i..], ';');
      assert cur + s[i..] == cur;
      SplitOnAbsent(cur, ';');
      assert chunks + Cuts(p) == chunks;
    } else if s[i] == ';' {
      assert [] + s[i + 1..] == s[i + 1..];
      RunWithoutTags(s, i + 1, chunks + [cur + [';']], []);
      WithoutTagsCut(s, i, chunks, cur);
    } else {
      assert s[i] in cur + [s[i]] ==> s[i] != ';';
      RunWithoutTags(s, i + 1, chunks, cur + [s[i]]);
      WithoutTagsAppend(s, i, chunks, cur);
    }
  }

  /** The step of `RunWithoutTags` at a `;`. */
  lemma WithoutTagsCut(s: string, i: nat, chunks: seq<string>, cur: string)
    requires i < |s| && s[i] == ';' && NoTagFrom(s, i) && ';' !in cur
    requires var q := SplitOn(s[i + 1..], ';');
      Run(s, i + 1, Scan(chunks + [cur + [';']], [], None))
        == Scan(chunks + [cur + [';']] + Cuts(q), q[|q| - 1], None)
    ensures var p := SplitOn(cur + s[i..], ';');
      Run(s, i, Scan(chunks, cur, None)) == Scan(chunks + Cuts(p), p[|p| - 1], None)
  {
    var p := SplitOn(cur + s[i..], ';');
    var q := SplitOn(s[i + 1..], ';');
    assert p == [cur] + q by {
      assert cur + s[i..] == cur + [';'] + s[i + 1..];
      SplitOnPrefix(cur, ';', s[i + 1..]);
    }
    RunCuts(s, i, Scan(chunks, cur, None));
    assert Cuts(p) == [cur + [';']] + Cuts(q);
  }

  /** The step of `RunWithoutTags` at any other character. */
  lemma WithoutTagsAppend(s: string, i: nat, chunks: seq<string>, cur: string)
    requires i < |s| && s[i] != ';' && NoTagFrom(s, i) && ';' !in cur
    requires var p := SplitOn((cur + [s[i]]) + s[i + 1..], ';');
      Run(s, i + 1, Scan(chunks, cur + [s[i]], None)) == Scan(chunks + Cuts(p), p[|p| - 1], None)
    ensures var p := SplitOn(cur + s[i..], ';');
      Run(s, i, Scan(chunks, cur, None)) == Scan(chunks + Cuts(p), p[|p| - 1], None)
  {
    assert (cur + [s[i]]) + s[i + 1..] == cur + s[i..];
    RunAppends(s, i, Scan(chunks, cur, None));
  }

  lemma {:induction false} StripAllAt(xs: seq<string>)
    ensures |StripAll(xs)| == |xs|
    ensures forall k :: 0 <= k < |xs| ==> StripAll(xs)[k] == Strip(xs[k])
    decreases |xs|
  {
    if xs != [] {
      var init := xs[..|xs| - 1];
      StripAllAt(init);
      var r := StripAll(xs);
      assert r == StripAll(init) + [Strip(xs[|xs| - 1])];
      forall k | 0 <= k < |xs| ensures r[k] == Strip(xs[k]) {
        if k < |init| {
          assert xs[k] == init[k] && r[k] == StripAll(init)[k];
        }
      }
    }
  }

  /** Without tags, the raw scan cuts exactly where `split(';')` does. */
  lemma NoTagRaw(s: string)
    requires NoTagFrom(s, 0)
    ensures var p := SplitOn(s, ';');
      RawSplit(s) == Scan(Cuts(p), p[|p| - 1], None)
  {
    assert [] + s[0..] == s;
    RunWithoutTags(s, 0, [], []);
  }

  /** Post-processing the cut pieces of `split(';')` gives their stripped forms. */
  lemma PostProcessCutPieces(p: seq<string>)
    requires |p| > 0 && forall k :: 0 <= k < |p| ==> ';' !in p[k]
    ensures PostProcess(StripAll(Cuts(p))) == StripAll(p[..|p| - 1])
  {
    var c := Cuts(p);
    PostProcessCuts(c);
    StripAllAt(p[..|p| - 1]);
    forall k | 0 <= k < |c| ensures PostProcess(StripAll(c))[k] == StripAll(p[..|p| - 1])[k] {
      assert c[k][..|c[k]| - 1] == p[k];
    }
  }

  /** A non-blank trailing piece without `;` is returned as its stripped form. */
  lemma PostProcessPlainTrailing(x: string)
    requires ';' !in x
    ensures PostProcess(Trailing(x)) == Trailing(x)
  {
    PostProcessTrailing(x);
    StripSpec(x);
    if Strip(x) != [] {
      var t := Strip(x);
      assert ';' !in t;
      assert !EndsWith(t, ';');
    }
  }

  /** Post-processing the pieces of a split without tags. */
  lemma PostProcessNoTag(p: seq<string>)
    requires |p| > 0 && forall k :: 0 <= k < |p| ==> ';' !in p[k]
    ensures PostProcess(StripAll(Cuts(p)) + Trailing(p[|p| - 1]))
      == StripAll(p[..|p| - 1]) + Trailing(p[|p| - 1])
  {
    var last := p[|p| - 1];
    assert ';' !in last;
    PostProcessAppend(StripAll(Cuts(p)), Trailing(last));
    PostProcessCutPieces(p);
    PostProcessPlainTrailing(last);
  }

  /** Without tags, `split_sql_statements` returns the stripped pieces of `split(';')`,
      except the last, which is kept only when it is not blank. */
  lemma NoTagSplit(s: string)
    requires NoTagFrom(s, 0)
    ensures var p := SplitOn(s, ';');
      Split(s) == StripAll(p[..|p| - 1]) + Trailing(p[|p| - 1])
  {
    var p := SplitOn(s, ';');
    NoTagRaw(s);
    assert Split(s) == PostProcess(StripAll(Cuts(p)) + Trailing(p[|p| - 1]));
    SplitOnSpec(s, ';');
    PostProcessNoTag(p);
  }

  /** Stripping blank pieces gives empty strings, one per piece. */
  lemma {:induction false} StripAllBlank(xs: seq<string>)
    requires AllBlank(xs)
    ensures StripAll(xs) == seq(|xs|, _ => [])
    decreases |xs|
  {
    if xs != [] {
      var init := xs[..|xs| - 1];
      assert AllBlank(init) by {
        forall k | 0 <= k < |init| ensures AllSpace(init[k]) {
          assert init[k] == xs[k];
        }
      }
      StripAllBlank(init);
      StripSpec(xs[|xs| - 1]);
    }
  }

  /** A script of only whitespace and semicolons yields one empty statement
      per `;`: `"; ;"` gives `["", ""]`, not an empty list. */
  lemma BlankScript(s: string)
    requires OnlySepOrSpace(s, ';')
    ensures Split(s) == seq(Count(s, ';'), _ => [])
  {
    assert '$' !in s by {
      forall j | 0 <= j < |s| ensures s[j] != '$' { }
    }
    DollarFreeHasNoTag(s);
    NoTagSplit(s);
    var p := SplitOn(s, ';');
    SplitOnSpec(s, ';');
    BlankPieces(s, ';');
    var init := p[..|p| - 1];
    assert AllBlank(init) by {
      forall k | 0 <= k < |init| ensures AllSpace(init[k]) {
        assert init[k] == p[k];
      }
    }
    StripAllBlank(init);
    assert Trailing(p[|p| - 1]) == [];
    assert |init| == Count(s, ';');
  }

  /** Blank statements rejoined with `;` and split again. */
  lemma {:induction false} JoinBlank(n: nat)
    requires n > 0
    ensures var t := JoinWith(seq(n, _ => []), ';');
      OnlySepOrSpace(t, ';') && Count(t, ';') == n - 1
  {
    var e: seq<string> := seq(n, _ => []);
    var t := JoinWith(e, ';');
    if n > 1 {
      JoinBlank(n - 1);
      var e': seq<string> := seq(n - 1, _ => []);
      var u := JoinWith(e', ';');
      assert e[1..] == e';
      assert t == [';'] + u;
      assert forall j :: 1 <= j < |t| ==> t[j] == u[j - 1];
      assert t[1..] == u;
    }
  }

  /** Re-splitting the statements rejoined with `;` does not give them back:
      a script of only whitespace and `;` yields one empty statement per `;`,
      but those statements rejoined with `;` yield one fewer. */
  lemma RejoinedNotResplit(s: string)
    requires OnlySepOrSpace(s, ';') && Count(s, ';') > 0
    ensures |Split(JoinWith(Split(s), ';'))| == |Split(s)| - 1
  {
    BlankScript(s);
    var n := Count(s, ';');
    JoinBlank(n);
    BlankScript(JoinWith(seq(n, _ => []), ';'));
  }
}
