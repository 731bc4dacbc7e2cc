/**
 * `split_sql_statements` of TTMS/scripts/apply_schema_verbose.py: cuts a SQL
 * script into statements at every `;` that is not inside a dollar-quoted
 * region, then strips one trailing `;` from each statement.
 *
 * The scan is specified by `Step`/`Run` on a value `Scan` (one iteration of
 * the Python `while` loop per call), and `SplitSqlStatements` is that loop,
 * proved to compute `Split`.  `Scan.chunks` holds each `;`-terminated piece
 * as cut, before `split_sql_statements` strips it.
 */
module VerboseSplitter {
  import opened Wrappers
  import opened PyStr
  import opened DollarQuote

  /** The scanner's state between two steps: the pieces already cut off (raw),
      the buffer `cur`, and the open tag (`None` when outside any region). */
  datatype Scan = Scan(chunks: seq<string>, cur: string, tag: Option<string>)

  const Start: Scan := Scan([], [], None)

  /** What every reachable state satisfies: an open tag is well-formed, and
      every cut piece ends with the `;` that cut it. */
  predicate WellFormed(st: Scan) {
    && (st.tag.Some? ==> IsTag(st.tag.value))
    && forall k :: 0 <= k < |st.chunks| ==> EndsWith(st.chunks[k], ';')
  }

  /** One iteration of the Python loop at position `i`: the new position
      and the new state. */
  function Step(s: string, i: nat, st: Scan): (r: (nat, Scan))
    requires i < |s|
    ensures i < r.0 <= |s|
  {
    var ch := s[i];
    var t := TagAt(s, i);
    if t.Some? && st.tag.None? then
      (i + |t.value|, Scan(st.chunks, st.cur + t.value, t))
    else if t.Some? && st.tag == t then
      (i + |t.value|, Scan(st.chunks, st.cur + t.value, None))
    else if ch == ';' && st.tag.None? then
      (i + 1, Scan(st.chunks + [st.cur + [ch]], [], None))
    else
      (i + 1, Scan(st.chunks, st.cur + [ch], st.tag))
  }

  /** The rest of the scan from position `i` in state `st`. */
  function Run(s: string, i: nat, st: Scan): Scan
    requires i <= |s|
    decreases |s| - i
  {
    if i == |s| then st
    else
      var next := Step(s, i, st);
      Run(s, next.0, next.1)
  }

  /** The state after scanning the whole script. */
  function RawSplit(s: string): Scan {
    Run(s, 0, Start)
  }

  /** Every piece stripped, in order. */
  function StripAll(xs: seq<string>): seq<string> {
    if xs == [] then [] else StripAll(xs[..|xs| - 1]) + [Strip(xs[|xs| - 1])]
  }

  lemma StripAllAppend(xs: seq<string>, x: string)
    ensures StripAll(xs + [x]) == StripAll(xs) + [Strip(x)]
  {
    assert (xs + [x])[..|xs|] == xs;
  }

  /** The trailing statement: the stripped buffer, if anything is left of it.
      There is one exactly when the buffer is not all whitespace. */
  function Trailing(cur: string): (r: seq<string>)
    ensures |r| <= 1
    ensures r == [] <==> AllSpace(cur)
  {
    StripEmptyIff(cur);
    if Strip(cur) != [] then [Strip(cur)] else []
  }

  /** `s[:-1].strip()` for a statement ending with `;`, the statement otherwise. */
  function Finish(x: string): (r: string)
    ensures |r| <= |x|
    ensures EndsWith(x, ';') ==> |r| < |x|
  {
    if EndsWith(x, ';') then Strip(x[..|x| - 1]) else x
  }

  /** The final list comprehension: keep non-blank statements and finish each. */
  function PostProcess(stmts: seq<string>): (r: seq<string>)
    ensures |r| <= |stmts|
  {
    if stmts == [] then []
    else
      var last := stmts[|stmts| - 1];
      PostProcess(stmts[..|stmts| - 1]) + (if Strip(last) != [] then [Finish(last)] else [])
  }

  /** The statements `split_sql_statements` returns for script `s`. */
  function Split(s: string): seq<string> {
    var raw := RawSplit(s);
    PostProcess(StripAll(raw.chunks) + Trailing(raw.cur))
  }

  /** The Python loop, with its local variables as `split_sql_statements` names them. */
  method SplitSqlStatements(sqlText: string) returns (result: seq<string>)
    ensures result == Split(sqlText)
  {
    var stmts: seq<string> := [];
    var cur: string := [];
    var inDollar := false;
    var dollarTag: Option<string> := None;
    var i := 0;
    ghost var raw: seq<string> := [];
    while i < |sqlText|
      invariant i <= |sqlText|
      invariant inDollar <==> dollarTag.Some?
      invariant dollarTag.Some? ==> IsTag(dollarTag.value)
      invariant stmts == StripAll(raw)
      invariant Run(sqlText, i, Scan(raw, cur, dollarTag)) == RawSplit(sqlText)
    {
      var ch := sqlText[i];
      var tag := DollarTagAt(sqlText, i);
      if tag.Some? && !inDollar {
        RunOpens(sqlText, i, Scan(raw, cur, dollarTag));
        inDollar := true;
        dollarTag := tag;
        cur := cur + tag.value;
        i := i + |tag.value|;
      } else if tag.Some? && tag == dollarTag {
        RunCloses(sqlText, i, Scan(raw, cur, dollarTag));
        inDollar := false;
        dollarTag := None;
        cur := cur + tag.value;
        i := i + |tag.value|;
      } else if ch == ';' && !inDollar {
        RunCuts(sqlText, i, Scan(raw, cur, dollarTag));
        StripAllAppend(raw, cur + [ch]);
        cur := cur + [ch];
        stmts := stmts + [Strip(cur)];
        raw := raw + [cur];
        cur := [];
        i := i + 1;
      } else {
        RunAppends(sqlText, i, Scan(raw, cur, dollarTag));
        cur := cur + [ch];
        i := i + 1;
      }
    }
    assert RawSplit(sqlText) == Scan(raw, cur, dollarTag);
    var trailing := Strip(cur);
    if trailing != [] {
      stmts := stmts + [trailing];
    }
    assert stmts == StripAll(raw) + Trailing(cur);
    result := PostProcess(stmts);
  }

  /** The test `split_sql_statements` makes at a `$`: scan the alphanumeric run after it
      and, when the run is not empty and a `$` follows, slice out the tag. */
  method DollarTagAt(s: string, i: nat) returns (tag: Option<string>)
    requires i < |s|
    ensures tag == TagAt(s, i)
    ensures tag.Some? ==> IsTag(tag.value)
  {
    tag := None;
    if s[i] == '$' {
      var j := ScanAlnum(s, i + 1);
      if j > i + 1 && j < |s| && s[j] == '$' {
        TagRecognised(s, i, j);
        tag := Some(s[i..j + 1]);
      }
    }
  }

  /** The inner `while j` loop of `split_sql_statements`: advance `j` over alphanumeric characters. */
  method ScanAlnum(s: string, k: nat) returns (j: nat)
    requires k <= |s|
    ensures j == AlnumRunEnd(s, k)
  {
    j := k;
    while j < |s| && IsAlnum(s[j])
      invariant k <= j <= |s|
      invariant AlnumRunEnd(s, j) == AlnumRunEnd(s, k)
    {
      j := j + 1;
    }
  }

  /** The tag the Python function slices out after its inner scan is the one `TagAt` recognises. */
  lemma TagRecognised(s: string, i: nat, j: nat)
    requires i < |s| && s[i] == '$'
    requires j == AlnumRunEnd(s, i + 1) && j > i + 1 && j < |s| && s[j] == '$'
    ensures TagAt(s, i) == Some(s[i..j + 1]) && IsTag(s[i..j + 1])
  {
    TagAtIff(s, i, s[i..j + 1]);
  }

  /** Outside any region, a recognised tag opens one and is kept in the buffer. */
  lemma RunOpens(s: string, i: nat, st: Scan)
    requires i < |s| && TagAt(s, i).Some? && st.tag.None?
    ensures var t := TagAt(s, i).value;
      Run(s, i, st) == Run(s, i + |t|, Scan(st.chunks, st.cur + t, Some(t)))
  {
  }

  /** Inside a region, the identical tag closes it and is kept in the buffer. */
  lemma RunCloses(s: string, i: nat, st: Scan)
    requires i < |s| && TagAt(s, i).Some? && TagAt(s, i) == st.tag
    ensures var t := TagAt(s, i).value;
      Run(s, i, st) == Run(s, i + |t|, Scan(st.chunks, st.cur + t, None))
  {
  }

  /** Outside any region, a `;` ends the current piece, which keeps the `;`. */
  lemma RunCuts(s: string, i: nat, st: Scan)
    requires i < |s| && s[i] == ';' && st.tag.None?
    ensures Run(s, i, st) == Run(s, i + 1, Scan(st.chunks + [st.cur + [';']], [], None))
  {
  }

  /** Every other character, including a `$` that starts no tag, a `$` of a
      tag other than the open one, and a `;` inside a region, is appended alone
      and the scan moves on by one character. */
  lemma RunAppends(s: string, i: nat, st: Scan)
    requires i < |s|
    requires TagAt(s, i).None? || (st.tag.Some? && TagAt(s, i) != st.tag)
    requires !(s[i] == ';' && st.tag.None?)
    ensures TagAt(s, i).Some? ==> s[i] == '$' 
    ensures Run(s, i, st) == Run(s, i + 1, Scan(st.chunks, st.cur + [s[i]], st.tag))
  {
  }
}
