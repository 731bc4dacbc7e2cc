/**
 * The few Python `str` operations the splitters rely on: `isspace`,
 * `isalnum`, `strip`, `split(';')`, `endswith` and concatenation of pieces.
 */
module PyStr {

  /** Python's `str.isspace` for one character: the exact set of code points
      Python 3 treats as whitespace (and therefore removes in `strip()`). */
  predicate IsSpace(c: char) {
    || ('\t' <= c <= '\r')
    || ('\U{1C}' <= c <= '\U{1F}')
    || c == ' ' || c == '\U{85}' || c == '\U{A0}' || c == '\U{1680}'
    || ('\U{2000}' <= c <= '\U{200A}')
    || c == '\U{2028}' || c == '\U{2029}' || c == '\U{202F}' || c == '\U{205F}'
    || c == '\U{3000}'
  }

  /** Python's `str.isalnum` restricted to ASCII: a letter or a digit. */
  predicate IsAlnum(c: char) {
    ('a' <= c <= 'z') || ('A' <= c <= 'Z') || ('0' <= c <= '9')
  }

  predicate AllSpace(s: string) {
    forall k :: 0 <= k < |s| ==> IsSpace(s[k])
  }

  predicate EndsWith(s: string, c: char) {
    |s| > 0 && s[|s| - 1] == c
  }

  /** Number of occurrences of `c` in `s`. */
  function Count(s: string, c: char): nat {
    if s == [] then 0 else (if s[0] == c then 1 else 0) + Count(s[1..], c)
  }

  /** `s` with its leading whitespace removed (see `LStripSpec`). */
  function LStrip(s: string): (r: string)
    ensures |r| <= |s|
  {
    if |s| > 0 && IsSpace(s[0]) then LStrip(s[1..]) else s
  }

  /** `s` with its trailing whitespace removed (see `RStripSpec`). */
  function RStrip(s: string): (r: string)
    ensures |r| <= |s|
  {
    if |s| > 0 && IsSpace(s[|s| - 1]) then RStrip(s[..|s| - 1]) else s
  }

  /** Python's `s.strip()` (see `StripSpec`). */
  function Strip(s: string): (r: string)
    ensures |r| <= |s|
  {
    RStrip(LStrip(s))
  }

  /** `LStrip` removes exactly the maximal whitespace prefix. */
  lemma {:induction false} LStripSpec(s: string)
    ensures var r := LStrip(s);
      && r == s[|s| - |r|..]
      && AllSpace(s[..|s| - |r|])
      && (r == [] || !IsSpace(r[0]))
  {
    if |s| > 0 && IsSpace(s[0]) {
      LStripSpec(s[1..]);
      var r := LStrip(s);
      assert s[..|s| - |r|] == [s[0]] + s[1..][..|s| - 1 - |r|];
    }
  }

  /** `RStrip` removes exactly the maximal whitespace suffix. */
  lemma {:induction false} RStripSpec(s: string)
    ensures var r := RStrip(s);
      && r == s[..|r|]
      && AllSpace(s[|r|..])
      && (r == [] || !IsSpace(r[|r| - 1]))
  {
    if |s| > 0 && IsSpace(s[|s| - 1]) {
      var t := s[..|s| - 1];
      RStripSpec(t);
      var r := RStrip(s);
      assert s[|r|..] == t[|r|..] + [s[|s| - 1]];
    }
  }

  /** `Strip(s)` is a piece of `s` that neither starts nor ends with whitespace,
      and everything cut off on either side is whitespace; it is empty exactly
      when `s` is all whitespace. */
  lemma StripSpec(s: string)
    ensures var r := Strip(s);
      && (exists a :: 0 <= a <= |s| - |r| && r == s[a..a + |r|]
            && AllSpace(s[..a]) && AllSpace(s[a + |r|..]))
      && (r == [] || (!IsSpace(r[0]) && !IsSpace(r[|r| - 1])))
      && (r == [] <==> AllSpace(s))
  {
    var l := LStrip(s);
    var r := RStrip(l);
    LStripSpec(s);
    RStripSpec(l);
    var a := |s| - |l|;
    assert r == s[a..a + |r|];
    assert s[a + |r|..] == l[|r|..];
    if r != [] {
      assert r[0] == l[0];
    }
    StripEmptyIff(s);
  }

  /** `strip()` gives the empty string exactly on all-whitespace text. */
  lemma StripEmptyIff(s: string)
    ensures Strip(s) == [] <==> AllSpace(s)
  {
    var l := LStrip(s);
    var r := RStrip(l);
    LStripSpec(s);
    RStripSpec(l);
    var a := |s| - |l|;
    assert l != [] ==> l[0] == s[a];
    if r == [] {
      assert l[|r|..] == l;
      assert l == [];
      assert s[..a] == s;
    }
  }

  /** Concatenation of pieces with no separator (Python's `''.join`). */
  function Concat(pieces: seq<string>): string {
    if pieces == [] then [] else pieces[0] + Concat(pieces[1..])
  }

  /** Concatenation of pieces with `sep` between consecutive ones (`sep.join`). */
  function JoinWith(pieces: seq<string>, sep: char): string {
    if |pieces| == 0 then []
    else if |pieces| == 1 then pieces[0]
    else pieces[0] + [sep] + JoinWith(pieces[1..], sep)
  }

  /** Python's `s.split(sep)` for a one-character separator: the maximal
      separator-free pieces, including empty ones at either end (see `SplitOnSpec`). */
  function SplitOn(s: string, sep: char): (r: seq<string>)
    ensures |r| > 0
  {
    if s == [] then [[]]
    else
      var rest := SplitOn(s[1..], sep);
      if s[0] == sep then [[]] + rest
      else [[s[0]] + rest[0]] + rest[1..]
  }

  /** The pieces are one more than the separators, contain no separator, and
      joined back with the separator give the text. */
  lemma {:induction false} SplitOnSpec(s: string, sep: char)
    ensures var r := SplitOn(s, sep);
      && |r| == Count(s, sep) + 1
      && (forall k :: 0 <= k < |r| ==> sep !in r[k])
      && JoinWith(r, sep) == s
  {
    if s != [] {
      var rest := SplitOn(s[1..], sep);
      SplitOnSpec(s[1..], sep);
      var r := SplitOn(s, sep);
      if s[0] == sep {
        assert s == [sep] + s[1..];
        assert forall k :: 1 <= k < |r| ==> r[k] == rest[k - 1];
      } else {
        assert r[1..] == rest[1..];
        assert forall k :: 1 <= k < |r| ==> r[k] == rest[k];
        assert JoinWith(r, sep) == [s[0]] + JoinWith(rest, sep);
        assert s == [s[0]] + s[1..];
      }
    }
  }

  lemma {:induction false} ConcatAppend(pieces: seq<string>, x: string)
    ensures Concat(pieces + [x]) == Concat(pieces) + x
  {
    if pieces == [] {
      assert [] + [x] == [x];
    } else {
      assert (pieces + [x])[1..] == pieces[1..] + [x];
      ConcatAppend(pieces[1..], x);
    }
  }

  lemma {:induction false} CountAppend(a: string, b: string, c: char)
    ensures Count(a + b, c) == Count(a, c) + Count(b, c)
  {
    if a == [] {
      assert a + b == b;
    } else {
      assert (a + b)[1..] == a[1..] + b;
      CountAppend(a[1..], b, c);
    }
  }

  lemma {:induction false} CountAbsent(s: string, c: char)
    ensures Count(s, c) == 0 <==> c !in s
  {
    if s != [] {
      CountAbsent(s[1..], c);
      assert c in s <==> s[0] == c || c in s[1..];
    }
  }

  /** Stripping never introduces a character. */
  lemma StripKeepsAbsent(s: string, c: char)
    requires c !in s
    ensures c !in Strip(s)
  {
    StripSpec(s);
    var r := Strip(s);
    var a :| 0 <= a <= |s| - |r| && r == s[a..a + |r|]
      && AllSpace(s[..a]) && AllSpace(s[a + |r|..]);
    forall k | 0 <= k < |r| ensures r[k] != c {
      assert r[k] == s[a + k];
    }
  }

  /** A stripped string is its own strip (`strip` is idempotent). */
  lemma StripIdempotent(s: string)
    ensures Strip(Strip(s)) == Strip(s)
  {
    StripSpec(s);
    var r := Strip(s);
    assert LStrip(r) == r;
    assert RStrip(r) == r;
  }

  /** A string that ends in a non-space character keeps it as its last
      character after stripping, and only its leading spaces go. */
  lemma StripEndingWithNonSpace(s: string, c: char)
    requires !IsSpace(c)
    ensures Strip(s + [c]) == LStrip(s) + [c]
  {
    LStripAppend(s, c);
  }

  lemma {:induction false} LStripAppend(s: string, c: char)
    requires !IsSpace(c)
    ensures LStrip(s + [c]) == LStrip(s) + [c]
  {
    if |s| > 0 && IsSpace(s[0]) {
      assert (s + [c])[1..] == s[1..] + [c];
      LStripAppend(s[1..], c);
    }
  }

  lemma {:induction false} StripOfLStrip(s: string)
    ensures Strip(LStrip(s)) == Strip(s)
  {
    LStripIdempotent(s);
  }

  lemma {:induction false} LStripIdempotent(s: string)
    ensures LStrip(LStrip(s)) == LStrip(s)
  {
    if |s| > 0 && IsSpace(s[0]) {
      LStripIdempotent(s[1..]);
    }
  }

  /** Splitting `x ; y` where `x` has no separator yields `x` followed by the pieces of `y`. */
  lemma {:induction false} SplitOnPrefix(x: string, sep: char, y: string)
    requires sep !in x
    ensures SplitOn(x + [sep] + y, sep) == [x] + SplitOn(y, sep)
  {
    if x == [] {
      assert [] + [sep] + y == [sep] + y;
      assert ([sep] + y)[1..] == y;
    } else {
      var s := x + [sep] + y;
      assert s[1..] == x[1..] + [sep] + y;
      SplitOnPrefix(x[1..], sep, y);
      assert x == [x[0]] + x[1..];
    }
  }

  /** A separator-free string splits into itself alone. */
  lemma {:induction false} SplitOnAbsent(x: string, sep: char)
    requires sep !in x
    ensures SplitOn(x, sep) == [x]
  {
    if x != [] {
      SplitOnAbsent(x[1..], sep);
      assert x == [x[0]] + x[1..];
    }
  }

  /** Every piece is blank. */
  predicate AllBlank(pieces: seq<string>) {
    forall k :: 0 <= k < |pieces| ==> AllSpace(pieces[k])
  }

  /** Every character is the separator or whitespace. */
  predicate OnlySepOrSpace(s: string, sep: char) {
    forall j :: 0 <= j < |s| ==> s[j] == sep || IsSpace(s[j])
  }

  /** The pieces of a split are all blank exactly when the text holds nothing
      but separators and whitespace. */
  lemma {:induction false} BlankPieces(s: string, sep: char)
    ensures AllBlank(SplitOn(s, sep)) <==> OnlySepOrSpace(s, sep)
  {
    if s != [] {
      var rest := SplitOn(s[1..], sep);
      var p := SplitOn(s, sep);
      BlankPieces(s[1..], sep);
      OnlySepOrSpaceCons(s, sep);
      if s[0] == sep {
        assert p == [[]] + rest;
        BlankCons([], rest);
      } else {
        var first := [s[0]] + rest[0];
        assert p == [first] + rest[1..];
        assert rest == [rest[0]] + rest[1..];
        BlankCons(first, rest[1..]);
        BlankCons(rest[0], rest[1..]);
        AllSpaceCons(s[0], rest[0]);
      }
    }
  }

  lemma BlankCons(x: string, rest: seq<string>)
    ensures AllBlank([x] + rest) <==> AllSpace(x) && AllBlank(rest)
  {
    var p := [x] + rest;
    assert p[0] == x;
    assert forall k :: 0 <= k < |rest| ==> rest[k] == p[k + 1];
    if AllSpace(x) && AllBlank(rest) {
      forall k | 0 <= k < |p| ensures AllSpace(p[k]) {
        if k > 0 {
          assert p[k] == rest[k - 1];
        }
      }
    }
  }

  lemma AllSpaceCons(c: char, x: string)
    ensures AllSpace([c] + x) <==> IsSpace(c) && AllSpace(x)
  {
    var y := [c] + x;
    assert y[0] == c;
    assert forall k :: 0 <= k < |x| ==> x[k] == y[k + 1];
    if IsSpace(c) && AllSpace(x) {
      forall k | 0 <= k < |y| ensures IsSpace(y[k]) {
        if k > 0 {
          assert y[k] == x[k - 1];
        }
      }
    }
  }

  lemma OnlySepOrSpaceCons(s: string, sep: char)
    requires s != []
    ensures OnlySepOrSpace(s, sep) <==> (s[0] == sep || IsSpace(s[0])) && OnlySepOrSpace(s[1..], sep)
  {
    assert forall j :: 1 <= j < |s| ==> s[j] == s[1..][j - 1];
  }
}
