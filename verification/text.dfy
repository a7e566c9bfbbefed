/** The JavaScript string operations the updater relies on, over `string`.
    A Dafny `char` is a Unicode scalar value, not a UTF-16 code unit; every
    white-space character is in the Basic Multilingual Plane, so the
    operations below treat the two alike:
    `String.prototype.trim`, `split` on a one-character separator, `split`
    on the regular expression `/\s+/`, and the decimal rendering of a number
    inside a template literal. */
module Text {

  /** The characters JavaScript's `\s` and `trim` treat as white space: the
      WhiteSpace and LineTerminator code points of ECMAScript. */
  predicate IsWs(c: char) {
    var n := c as int;
    || n == 0x09 || n == 0x0A || n == 0x0B || n == 0x0C || n == 0x0D
    || n == 0x20 || n == 0xA0 || n == 0x1680 || (0x2000 <= n <= 0x200A)
    || n == 0x2028 || n == 0x2029 || n == 0x202F || n == 0x205F
    || n == 0x3000 || n == 0xFEFF
  }

  predicate NoWs(s: string) {
    forall i :: 0 <= i < |s| ==> !IsWs(s[i])
  }

  predicate AllWs(s: string) {
    forall i :: 0 <= i < |s| ==> IsWs(s[i])
  }

  /** `s` with its leading white space removed. */
  function TrimStart(s: string): (r: string)
    ensures |r| <= |s| && r == s[|s| - |r|..]
    ensures AllWs(s[..|s| - |r|])
    ensures r == [] || !IsWs(r[0])
    decreases |s|
  {
    if |s| > 0 && IsWs(s[0]) then
      var r := TrimStart(s[1..]);
      assert s[..|s| - |r|] == [s[0]] + s[1..][..|s| - 1 - |r|];
      r
    else
      assert s[..0] == [];
      s
  }

  /** `s` with its trailing white space removed. */
  function TrimEnd(s: string): (r: string)
    ensures |r| <= |s| && r == s[..|r|]
    ensures AllWs(s[|r|..])
    ensures r == [] || !IsWs(r[|r| - 1])
    decreases |s|
  {
    if |s| > 0 && IsWs(s[|s| - 1]) then
      var r := TrimEnd(s[..|s| - 1]);
      assert s[|r|..] == s[..|s| - 1][|r|..] + [s[|s| - 1]];
      r
    else
      assert s[|s|..] == [];
      s
  }

  /** `s.trim()`: the part of `s` between its leading and trailing white
      space. */
  function Trim(s: string): (r: string)
    ensures |r| <= |s|
    ensures r == [] || (!IsWs(r[0]) && !IsWs(r[|r| - 1]))
  {
    TrimEnd(TrimStart(s))
  }

  /** Trimming leaves nothing exactly when the string is all white space. */
  lemma TrimEmptyIff(s: string)
    ensures Trim(s) == [] <==> AllWs(s)
  {
    var t := TrimStart(s);
    if AllWs(s) {
      TrimStartAll(s);
    }
    if TrimEnd(t) == [] {
      assert t[0..] == t;
      assert t == [];
      assert s[..|s|] == s;
    }
  }

  /** A string that neither starts nor ends with white space is its own trim. */
  lemma TrimNoOp(s: string)
    requires s == [] || (!IsWs(s[0]) && !IsWs(s[|s| - 1]))
    ensures Trim(s) == s
  {
  }

  /** White space around a string that neither starts nor ends with white
      space is exactly what trimming removes. */
  lemma TrimPadded(w1: string, s: string, w2: string)
    requires s == [] || (!IsWs(s[0]) && !IsWs(s[|s| - 1]))
    requires AllWs(w1) && AllWs(w2)
    ensures Trim(w1 + s + w2) == s
  {
    assert w1 + s + w2 == w1 + (s + w2);
    if s == [] {
      assert w1 + s + w2 == w1 + w2;
      TrimStartAll(w1 + w2);
    } else {
      TrimStartPrefix(w1, s + w2);
      TrimEndAppend(s, w2);
    }
  }

  lemma {:induction false} TrimStartAll(w: string)
    requires AllWs(w)
    ensures TrimStart(w) == []
    decreases |w|
  {
    if |w| > 0 {
      TrimStartAll(w[1..]);
    }
  }

  lemma {:induction false} TrimStartPrefix(w: string, s: string)
    requires AllWs(w)
    requires s == [] || !IsWs(s[0])
    ensures TrimStart(w + s) == s
    decreases |w|
  {
    if |w| == 0 {
      assert w + s == s;
    } else {
      assert (w + s)[1..] == w[1..] + s;
      TrimStartPrefix(w[1..], s);
    }
  }

  lemma {:induction false} TrimEndAppend(s: string, w: string)
    requires s == [] || !IsWs(s[|s| - 1])
    requires AllWs(w)
    ensures TrimEnd(s + w) == s
    decreases |w|
  {
    if |w| == 0 {
      assert s + w == s;
    } else {
      assert (s + w)[..|s + w| - 1] == s + w[..|w| - 1];
      TrimEndAppend(s, w[..|w| - 1]);
    }
  }

  /** The pieces joined back with `sep` between consecutive ones. */
  function JoinWith(parts: seq<string>, sep: char): string
    decreases |parts|
  {
    if |parts| == 0 then ""
    else if |parts| == 1 then parts[0]
    else parts[0] + [sep] + JoinWith(parts[1..], sep)
  }

  /** `s.split(sep)`: the maximal pieces of `s` between occurrences of `sep`.
      There is always at least one piece (`"".split("\n")` is `[""]`), no
      piece contains the separator, and joining the pieces restores `s`. */
  function SplitOn(s: string, sep: char): (r: seq<string>)
    ensures |r| >= 1
    ensures forall i :: 0 <= i < |r| ==> sep !in r[i]
    ensures JoinWith(r, sep) == s
    decreases |s|
  {
    if |s| == 0 then [""]
    else
      var rest := SplitOn(s[1..], sep);
      if s[0] == sep then
        assert [sep] + s[1..] == s;
        [""] + rest
      else
        var r := [[s[0]] + rest[0]] + rest[1..];
        assert JoinWith(r, sep) == [s[0]] + JoinWith(rest, sep) by {
          if |rest| > 1 {
            assert rest == [rest[0]] + rest[1..];
            assert r[1..] == rest[1..];
          }
        }
        r
  }

  /** Splitting undoes joining, provided no piece contains the separator. */
  lemma {:induction false} SplitJoin(parts: seq<string>, sep: char)
    requires |parts| >= 1
    requires forall i :: 0 <= i < |parts| ==> sep !in parts[i]
    ensures SplitOn(JoinWith(parts, sep), sep) == parts
    decreases |parts|
  {
    if |parts| == 1 {
      SplitPiece(parts[0], [], sep);
      assert parts[0] + [] == parts[0];
    } else {
      var tail := JoinWith(parts[1..], sep);
      SplitJoin(parts[1..], sep);
      SplitAtSep(tail, sep);
      SplitPiece(parts[0], [sep] + tail, sep);
      JoinWithCons(parts, sep);
      Recombine(parts[0], SplitOn([sep] + tail, sep), parts[1..]);
      assert parts == [parts[0]] + parts[1..];
    }
  }

  /** Unfolding a join of at least two pieces. */
  lemma JoinWithCons(parts: seq<string>, sep: char)
    requires |parts| > 1
    ensures JoinWith(parts, sep) == parts[0] + ([sep] + JoinWith(parts[1..], sep))
  {
  }

  lemma Recombine(a: string, y: seq<string>, rest: seq<string>)
    requires y == [""] + rest
    ensures [a + y[0]] + y[1..] == [a] + rest
  {
    assert a + "" == a;
    assert y[1..] == rest;
  }

  /** A leading separator splits off an empty first piece. */
  lemma SplitAtSep(s: string, sep: char)
    ensures SplitOn([sep] + s, sep) == [""] + SplitOn(s, sep)
  {
    assert ([sep] + s)[1..] == s;
  }

  /** A separator-free prefix ends up at the front of the first piece. */
  lemma {:induction false} SplitPiece(a: string, b: string, sep: char)
    requires sep !in a
    ensures SplitOn(a + b, sep) == [a + SplitOn(b, sep)[0]] + SplitOn(b, sep)[1..]
    decreases |a|
  {
    var x := SplitOn(b, sep);
    if |a| == 0 {
      assert a + b == b;
      assert a + x[0] == x[0];
      assert x == [x[0]] + x[1..];
    } else {
      var ab := a + b;
      assert ab[0] == a[0] && ab[1..] == a[1..] + b;
      SplitPiece(a[1..], b, sep);
      var rest := SplitOn(a[1..] + b, sep);
      assert SplitOn(ab, sep) == [[a[0]] + rest[0]] + rest[1..];
      ConsPiece(a, x, rest);
    }
  }

  /** Putting the first character of `a` back at the front of the first piece. */
  lemma ConsPiece(a: string, x: seq<string>, rest: seq<string>)
    requires |a| > 0 && |x| > 0
    requires rest == [a[1..] + x[0]] + x[1..]
    ensures [[a[0]] + rest[0]] + rest[1..] == [a + x[0]] + x[1..]
  {
    assert rest[0] == a[1..] + x[0] && rest[1..] == x[1..];
    assert [a[0]] + (a[1..] + x[0]) == a + x[0];
  }

  /** `s.split(/\s+/)`: the pieces of `s` between maximal runs of white
      space. A leading run yields an empty first piece and a trailing run an
      empty last piece, as in JavaScript; every piece between is non-empty. */
  function SplitWs(s: string): (r: seq<string>)
    ensures |r| >= 1
    ensures |r[0]| <= |s| && r[0] == s[..|r[0]|] && NoWs(r[0]) && (|r[0]| == |s| || IsWs(s[|r[0]|]))
    decreases |s|
  {
    if |s| == 0 then [""]
    else
      var rest := SplitWs(s[1..]);
      if IsWs(s[0]) then
        if |s| > 1 && IsWs(s[1]) then rest else [""] + rest
      else
        [[s[0]] + rest[0]] + rest[1..]
  }

  /** No piece of a white-space split contains white space, every piece
      strictly between the first and the last is non-empty, and the last is
      non-empty when the string does not end in white space. */
  lemma {:induction false} SplitWsPieces(s: string)
    ensures forall i :: 0 <= i < |SplitWs(s)| ==> NoWs(SplitWs(s)[i])
    ensures forall i :: 0 < i < |SplitWs(s)| - 1 ==> SplitWs(s)[i] != ""
    ensures |s| > 0 && !IsWs(s[|s| - 1]) ==> SplitWs(s)[|SplitWs(s)| - 1] != ""
    decreases |s|
  {
    if |s| > 0 {
      SplitWsPieces(s[1..]);
      var rest := SplitWs(s[1..]);
      var r := SplitWs(s);
      if !IsWs(s[0]) {
        assert r == [[s[0]] + rest[0]] + rest[1..];
        assert |r| == |rest| && r[0] != "";
        forall i | 0 < i < |r|
          ensures r[i] == rest[i]
        {
        }
        assert s[1..] == [] || s[|s| - 1] == s[1..][|s[1..]| - 1];
      } else if |s| > 1 && IsWs(s[1]) {
        assert r == rest;
        assert s[|s| - 1] == s[1..][|s[1..]| - 1];
      } else {
        assert r == [""] + rest;
        assert |r| == |rest| + 1;
        forall i | 0 < i < |r|
          ensures r[i] == rest[i - 1]
        {
        }
        assert |s| > 1 ==> s[|s| - 1] == s[1..][|s[1..]| - 1];
      }
    }
  }

  /** The first white-space-delimited piece, `s.split(/\s+/)[0]`. */
  function FirstToken(s: string): (r: string)
    ensures |r| <= |s| && r == s[..|r|] && NoWs(r)
    ensures |r| == |s| || IsWs(s[|r|])
  {
    SplitWs(s)[0]
  }

  /** A white-space-free prefix ends up at the front of the first piece. */
  lemma {:induction false} SplitWsPiece(a: string, b: string)
    requires NoWs(a)
    ensures SplitWs(a + b) == [a + SplitWs(b)[0]] + SplitWs(b)[1..]
    decreases |a|
  {
    var x := SplitWs(b);
    if |a| == 0 {
      assert a + b == b;
      assert a + x[0] == x[0];
      assert x == [x[0]] + x[1..];
    } else {
      var ab := a + b;
      assert ab[0] == a[0] && ab[1..] == a[1..] + b;
      assert !IsWs(ab[0]);
      SplitWsPiece(a[1..], b);
      var rest := SplitWs(a[1..] + b);
      assert SplitWs(ab) == [[a[0]] + rest[0]] + rest[1..];
      ConsPiece(a, x, rest);
    }
  }

  /** Tokens joined with a white-space run between consecutive ones:
      `tokens[0] + runs[0] + tokens[1] + ... + tokens[n - 1]`. */
  function JoinRuns(tokens: seq<string>, runs: seq<string>): string
    requires |tokens| >= 1 && |runs| == |tokens| - 1
    decreases |tokens|
  {
    if |tokens| == 1 then tokens[0]
    else tokens[0] + runs[0] + JoinRuns(tokens[1..], runs[1..])
  }

  /** Splitting on white space undoes joining non-empty, white-space-free
      tokens with non-empty white-space runs of any length and kind. */
  lemma {:induction false} SplitWsJoinRuns(tokens: seq<string>, runs: seq<string>)
    requires |tokens| >= 1 && |runs| == |tokens| - 1
    requires forall i :: 0 <= i < |tokens| ==> tokens[i] != "" && NoWs(tokens[i])
    requires forall i :: 0 <= i < |runs| ==> runs[i] != "" && AllWs(runs[i])
    ensures SplitWs(JoinRuns(tokens, runs)) == tokens
    decreases |tokens|
  {
    if |tokens| == 1 {
      SplitWsPiece(tokens[0], []);
      assert tokens[0] + [] == tokens[0];
    } else {
      var tail := JoinRuns(tokens[1..], runs[1..]);
      assert tokens[1..][0] == tokens[1];
      SplitWsJoinRuns(tokens[1..], runs[1..]);
      JoinRunsHead(tokens[1..], runs[1..]);
      SplitWsJoinStep(tokens[0], runs[0], tail, tokens[1..]);
      assert tokens == [tokens[0]] + tokens[1..];
    }
  }

  /** One step of the run-join round trip: a token, a run, then text that
      splits into `rest`. */
  lemma SplitWsJoinStep(a: string, w: string, tail: string, rest: seq<string>)
    requires a != "" && NoWs(a)
    requires w != [] && AllWs(w)
    requires tail != [] && !IsWs(tail[0]) && SplitWs(tail) == rest
    ensures SplitWs(a + w + tail) == [a] + rest
  {
    SplitWsAtRun(w, tail);
    SplitWsPiece(a, w + tail);
    assert a + w + tail == a + (w + tail);
    Recombine(a, SplitWs(w + tail), rest);
  }

  /** A white-space run before a token splits off one empty piece, however
      long the run is. */
  lemma {:induction false} SplitWsAtRun(w: string, s: string)
    requires w != [] && AllWs(w)
    requires s != [] && !IsWs(s[0])
    ensures SplitWs(w + s) == [""] + SplitWs(s)
    decreases |w|
  {
    var ws := w + s;
    assert ws[0] == w[0];
    if |w| == 1 {
      assert ws[1..] == s;
    } else {
      assert ws[1..] == w[1..] + s;
      assert ws[1] == w[1];
      SplitWsAtRun(w[1..], s);
    }
  }

  /** A run-join whose first token is non-empty starts with that token. */
  lemma JoinRunsHead(tokens: seq<string>, runs: seq<string>)
    requires |tokens| >= 1 && |runs| == |tokens| - 1 && tokens[0] != ""
    ensures |JoinRuns(tokens, runs)| > 0 && JoinRuns(tokens, runs)[0] == tokens[0][0]
  {
  }

  /** A run-join whose last token is non-empty ends with that token. */
  lemma {:induction false} JoinRunsLast(tokens: seq<string>, runs: seq<string>)
    requires |tokens| >= 1 && |runs| == |tokens| - 1 && tokens[|tokens| - 1] != ""
    ensures var j := JoinRuns(tokens, runs); |j| > 0 && j[|j| - 1] == tokens[|tokens| - 1][|tokens[|tokens| - 1]| - 1]
    decreases |tokens|
  {
    if |tokens| > 1 {
      JoinRunsLast(tokens[1..], runs[1..]);
    }
  }

  /** A join of pieces whose first piece is non-empty starts with that piece. */
  lemma JoinWithHead(parts: seq<string>, sep: char)
    requires |parts| >= 1 && parts[0] != ""
    ensures |JoinWith(parts, sep)| > 0 && JoinWith(parts, sep)[0] == parts[0][0]
  {
  }

  /** A join of pieces whose last piece is non-empty ends with that piece. */
  lemma {:induction false} JoinWithLast(parts: seq<string>, sep: char)
    requires |parts| >= 1 && parts[|parts| - 1] != ""
    ensures var j := JoinWith(parts, sep); |j| > 0 && j[|j| - 1] == parts[|parts| - 1][|parts[|parts| - 1]| - 1]
    decreases |parts|
  {
    if |parts| > 1 {
      JoinWithLast(parts[1..], sep);
    }
  }

  /** The decimal digit for `d`. */
  function Digit(d: nat): (c: char)
    requires d < 10
    ensures '0' <= c <= '9' && c as int - '0' as int == d
  {
    ('0' as int + d) as char
  }

  /** The digits of a numeric field of a semantic version, such as the "12"
      of "v1.12.0": decimal, most significant first, without leading zeros. */
  function Decimal(n: nat): (r: string)
    ensures |r| >= 1 && NoWs(r)
    ensures forall i :: 0 <= i < |r| ==> '0' <= r[i] <= '9'
    ensures DigitsValue(r) == n
    ensures |r| > 1 ==> r[0] != '0'
    decreases n
  {
    if n < 10 then [Digit(n)]
    else
      var r := Decimal(n / 10) + [Digit(n % 10)];
      assert r[..|r| - 1] == Decimal(n / 10);
      r
  }

  /** The number a string of decimal digits denotes. */
  function DigitsValue(s: string): int
    decreases |s|
  {
    if |s| == 0 then 0
    else 10 * DigitsValue(s[..|s| - 1]) + (s[|s| - 1] as int - '0' as int)
  }
}
