/**
 * The splitter of TTMS/scripts/apply_schema.py: the script is cut at every
 * `;` (Python's `split(';')`), each piece is stripped, blank pieces are
 * dropped, and each statement is submitted with one `;` put back.
 */
module NaiveSplitter {
  import opened PyStr

  /** The list comprehension `[s.strip() for s in pieces if s.strip()]`. */
  function StrippedNonBlank(pieces: seq<string>): (r: seq<string>)
    ensures |r| <= |pieces|
  {
    if pieces == [] then []
    else
      var last := pieces[|pieces| - 1];
      StrippedNonBlank(pieces[..|pieces| - 1]) + (if Strip(last) != [] then [Strip(last)] else [])
  }

  /** The statements the script is cut into. */
  function NaiveSplit(sql: string): seq<string> {
    StrippedNonBlank(SplitOn(sql, ';'))
  }

  /** The text handed to the database for one statement. */
  function Submitted(stmt: string): (r: string)
    ensures |r| == |stmt| + 1 && EndsWith(r, ';')
  {
    stmt + [';']
  }

  /** The positions of the pieces the comprehension keeps, in order. */
  function KeptIndices(pieces: seq<string>): seq<nat> {
    if pieces == [] then []
    else
      var n := |pieces| - 1;
      KeptIndices(pieces[..n]) + (if Strip(pieces[n]) != [] then [n] else [])
  }

  /** The comprehension keeps, in their order and stripped, exactly the pieces
      whose strip is not empty (see also `KeptIndicesExact`). */
  lemma {:induction false} KeptIndicesSpec(pieces: seq<string>)
    ensures var idx := KeptIndices(pieces);
      var r := StrippedNonBlank(pieces);
      && |idx| == |r|
      && (forall k :: 0 <= k < |idx| ==> idx[k] < |pieces| && r[k] == Strip(pieces[idx[k]]))
      && (forall k, l :: 0 <= k < l < |idx| ==> idx[k] < idx[l])
    decreases |pieces|
  {
    if pieces != [] {
      var n := |pieces| - 1;
      var init := pieces[..n];
      KeptIndicesSpec(init);
      var idx0 := KeptIndices(init);
      var r0 := StrippedNonBlank(init);
      var idx := KeptIndices(pieces);
      var r := StrippedNonBlank(pieces);
      assert idx[..|idx0|] == idx0 && r[..|r0|] == r0;
      forall k | 0 <= k < |idx0| ensures idx[k] < |pieces| && r[k] == Strip(pieces[idx[k]]) {
        assert idx[k] == idx0[k] && r[k] == r0[k];
        assert init[idx0[k]] == pieces[idx0[k]];
      }
    }
  }

  /** A piece is kept exactly when its strip is not empty. */
  lemma {:induction false} KeptIndicesExact(pieces: seq<string>)
    ensures forall m :: 0 <= m < |pieces| ==> (m in KeptIndices(pieces) <==> Strip(pieces[m]) != [])
    decreases |pieces|
  {
    if pieces != [] {
      var n := |pieces| - 1;
      var init := pieces[..n];
      KeptIndicesExact(init);
      KeptIndicesSpec(init);
      var idx0 := KeptIndices(init);
      var idx := KeptIndices(pieces);
      forall m | 0 <= m < |pieces| ensures m in idx <==> Strip(pieces[m]) != [] {
        if m < n {
          assert init[m] == pieces[m];
          assert m in idx <==> m in idx0;
        } else {
          assert n !in idx0;
        }
      }
    }
  }

  /** A statement: non-empty, no whitespace at either end, no `;`. */
  predicate CleanStatement(x: string) {
    && x != []
    && !IsSpace(x[0]) && !IsSpace(x[|x| - 1])
    && ';' !in x
  }

  lemma CleanPiece(y: string)
    requires ';' !in y && Strip(y) != []
    ensures CleanStatement(Strip(y))
  {
    StripSpec(y);
    StripKeepsAbsent(y, ';');
  }

  lemma CleanPieces(pieces: seq<string>)
    requires forall k :: 0 <= k < |pieces| ==> ';' !in pieces[k]
    ensures forall k :: 0 <= k < |StrippedNonBlank(pieces)| ==> CleanStatement(StrippedNonBlank(pieces)[k])
  {
    KeptIndicesSpec(pieces);
    var idx := KeptIndices(pieces);
    var r := StrippedNonBlank(pieces);
    forall k | 0 <= k < |r| ensures CleanStatement(r[k]) {
      CleanPiece(pieces[idx[k]]);
    }
  }

  /** Every statement is non-empty, starts and ends with a non-space
      character, and contains no `;`. */
  lemma NaiveSplitElements(sql: string)
    ensures forall k :: 0 <= k < |NaiveSplit(sql)| ==>
      var x := NaiveSplit(sql)[k];
      && x != []
      && !IsSpace(x[0]) && !IsSpace(x[|x| - 1])
      && ';' !in x
  {
    SplitOnSpec(sql, ';');
    CleanPieces(SplitOn(sql, ';'));
  }

  /** There are at most one more statements than `;` in the script. */
  lemma NaiveSplitCount(sql: string)
    ensures |NaiveSplit(sql)| <= Count(sql, ';') + 1
  {
    SplitOnSpec(sql, ';');
  }

  lemma {:induction false} StrippedNonBlankEmpty(pieces: seq<string>)
    ensures StrippedNonBlank(pieces) == [] <==> AllBlank(pieces)
  {
    KeptIndicesSpec(pieces);
    KeptIndicesExact(pieces);
    var idx := KeptIndices(pieces);
    if AllBlank(pieces) && idx != [] {
      StripSpec(pieces[idx[0]]);
    }
    if !AllBlank(pieces) {
      var m :| 0 <= m < |pieces| && !AllSpace(pieces[m]);
      StripSpec(pieces[m]);
      assert m in idx;
    }
  }

  /** The script yields no statement exactly when it holds only whitespace
      and `;`. */
  lemma NaiveSplitEmpty(sql: string)
    ensures NaiveSplit(sql) == [] <==> OnlySepOrSpace(sql, ';')
  {
    StrippedNonBlankEmpty(SplitOn(sql, ';'));
    BlankPieces(sql, ';');
  }

  /** Each submitted statement holds exactly one `;`, its last character, and
      stripping that `;` off again gives the statement back. */
  lemma SubmittedStatement(sql: string, k: nat)
    requires k < |NaiveSplit(sql)|
    ensures var x := NaiveSplit(sql)[k];
      && Count(Submitted(x), ';') == 1
      && Submitted(x)[..|x|] == x
      && Strip(Submitted(x)[..|x|]) == x
  {
    var x := NaiveSplit(sql)[k];
    NaiveSplitElements(sql);
    CountAppend(x, [';'], ';');
    CountAbsent(x, ';');
    assert Count([';'], ';') == 1;
    var p := SplitOn(sql, ';');
    KeptIndicesSpec(p);
    StripIdempotent(p[KeptIndices(p)[k]]);
    assert Submitted(x)[..|x|] == x;
  }
}
