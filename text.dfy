/**
 * The JavaScript string operations the student manager relies on:
 * `toLowerCase`, `trim`, `includes`, `split(',')` and the relational
 * operators on strings. Strings are sequences of characters.
 */
module JsText {

  /** ASCII case mapping of `toLowerCase`. */
  function LowerChar(c: char): (r: char)
    ensures 'A' <= c <= 'Z' ==> 'a' <= r <= 'z' && r as int - c as int == 32
    ensures !('A' <= c <= 'Z') ==> r == c
  {
    if 'A' <= c <= 'Z' then (c as int + 32) as char else c
  }

  function Lower(s: string): (r: string)
    ensures |r| == |s|
    ensures forall i :: 0 <= i < |s| ==> r[i] == LowerChar(s[i])
  {
    seq(|s|, i requires 0 <= i < |s| => LowerChar(s[i]))
  }

  /** Lowering twice is lowering once: a lowered string has no upper-case letter left. */
  lemma LowerIdempotent(s: string)
    ensures Lower(Lower(s)) == Lower(s)
  {
    assert forall i :: 0 <= i < |s| ==> LowerChar(LowerChar(s[i])) == LowerChar(s[i]);
  }

  /** The WhiteSpace and LineTerminator code points of ECMAScript, which `trim` removes. */
  predicate IsSpace(c: char) {
    || c == '\t' || c == '\n' || c == '\U{000B}' || c == '\U{000C}' || c == '\r' || c == ' '
    || c == '\U{00A0}' || c == '\U{1680}' || ('\U{2000}' <= c <= '\U{200A}')
    || c == '\U{2028}' || c == '\U{2029}' || c == '\U{202F}' || c == '\U{205F}'
    || c == '\U{3000}' || c == '\U{FEFF}'
  }

  function TrimStart(s: string): (r: string)
    ensures |r| <= |s| && r == s[|s| - |r|..]
    ensures forall i :: 0 <= i < |s| - |r| ==> IsSpace(s[i])
    ensures r != [] ==> !IsSpace(r[0])
  {
    if s != [] && IsSpace(s[0]) then
      var r := TrimStart(s[1..]);
      assert s[1..][|s| - 1 - |r|..] == s[|s| - |r|..];
      assert forall i :: 1 <= i < |s| ==> s[1..][i - 1] == s[i];
      r
    else s
  }

  function TrimEnd(s: string): (r: string)
    ensures |r| <= |s| && r == s[..|r|]
    ensures forall i :: |r| <= i < |s| ==> IsSpace(s[i])
    ensures r != [] ==> !IsSpace(r[|r| - 1])
  {
    if s != [] && IsSpace(s[|s| - 1]) then
      var r := TrimEnd(s[..|s| - 1]);
      assert s[..|s| - 1][..|r|] == s[..|r|];
      assert forall i :: 0 <= i < |s| - 1 ==> s[..|s| - 1][i] == s[i];
      r
    else s
  }

  /**
   * `s` is white space up to index `k`, then `r`, then white space to the end:
   * `r` is what is left of `s` once white space is stripped from both ends.
   */
  predicate StrippedAt(s: string, r: string, k: int) {
    && 0 <= k && k + |r| <= |s| && r == s[k..k + |r|]
    && (forall i :: 0 <= i < k ==> IsSpace(s[i]))
    && (forall i :: k + |r| <= i < |s| ==> IsSpace(s[i]))
  }

  /** `trim`: the infix of `s` left once white space is stripped from both ends. */
  function Trim(s: string): (r: string)
    ensures exists k :: StrippedAt(s, r, k)
    ensures r != [] ==> !IsSpace(r[0]) && !IsSpace(r[|r| - 1])
  {
    var t := TrimStart(s);
    var r := TrimEnd(t);
    StrippedFromParts(s, t, r);
    r
  }

  /** Stripping the front of `s` to `t`, then the end of `t` to `r`, strips `s` to `r`. */
  lemma StrippedFromParts(s: string, t: string, r: string)
    requires |t| <= |s| && t == s[|s| - |t|..] && forall i :: 0 <= i < |s| - |t| ==> IsSpace(s[i])
    requires |r| <= |t| && r == t[..|r|] && forall i :: |r| <= i < |t| ==> IsSpace(t[i])
    ensures StrippedAt(s, r, |s| - |t|)
  {
    var k := |s| - |t|;
    assert r == s[k..k + |r|];
    forall i | k + |r| <= i < |s| ensures IsSpace(s[i]) {
      assert s[i] == t[i - k];
    }
  }

  /** A character other than white space survives `trim` at both ends. */
  lemma TrimKeepsEnds(s: string)
    requires s != [] && !IsSpace(s[0]) && !IsSpace(s[|s| - 1])
    ensures Trim(s) == s
  {
  }

  /** All characters of `w` are white space. */
  predicate AllSpace(w: string) {
    forall i :: 0 <= i < |w| ==> IsSpace(w[i])
  }

  lemma {:induction false} TrimStartAfterSpace(w: string, x: string)
    requires AllSpace(w)
    ensures TrimStart(w + x) == TrimStart(x)
  {
    if w != [] {
      assert (w + x)[0] == w[0] && (w + x)[1..] == w[1..] + x;
      TrimStartAfterSpace(w[1..], x);
    } else {
      assert w + x == x;
    }
  }

  lemma {:induction false} TrimEndBeforeSpace(x: string, w: string)
    requires AllSpace(w)
    ensures TrimEnd(x + w) == TrimEnd(x)
    decreases |w|
  {
    if w != [] {
      var v := w[..|w| - 1];
      assert (x + w)[|x + w| - 1] == w[|w| - 1] && (x + w)[..|x + w| - 1] == x + v;
      TrimEndBeforeSpace(x, v);
    } else {
      assert x + w == x;
    }
  }

  /** Once a non-space character is met, `TrimStart` keeps the rest, whatever follows. */
  lemma {:induction false} TrimStartBeforeText(x: string, w: string)
    requires !AllSpace(x)
    ensures TrimStart(x + w) == TrimStart(x) + w
  {
    assert (x + w)[0] == x[0];
    if IsSpace(x[0]) {
      assert (x + w)[1..] == x[1..] + w;
      assert !AllSpace(x[1..]) by {
        var i :| 0 <= i < |x| && !IsSpace(x[i]);
        assert x[1..][i - 1] == x[i];
      }
      TrimStartBeforeText(x[1..], w);
    }
  }

  lemma {:induction false} TrimStartAllSpace(x: string)
    requires AllSpace(x)
    ensures TrimStart(x) == []
  {
    if x != [] {
      assert AllSpace(x[1..]) by {
        forall i | 0 <= i < |x| - 1 ensures IsSpace(x[1..][i]) { assert x[1..][i] == x[i + 1]; }
      }
      TrimStartAllSpace(x[1..]);
    }
  }

  /** White space around a string does not change what `trim` leaves of it. */
  lemma TrimSpaceAround(w1: string, p: string, w2: string)
    requires AllSpace(w1) && AllSpace(w2)
    ensures Trim(w1 + p + w2) == Trim(p)
  {
    assert w1 + p + w2 == w1 + (p + w2);
    TrimStartAfterSpace(w1, p + w2);
    if AllSpace(p) {
      assert AllSpace(p + w2) by {
        forall i | 0 <= i < |p + w2| ensures IsSpace((p + w2)[i]) {
          if i < |p| { assert (p + w2)[i] == p[i]; } else { assert (p + w2)[i] == w2[i - |p|]; }
        }
      }
      TrimStartAllSpace(p + w2);
      TrimStartAllSpace(p);
    } else {
      TrimStartBeforeText(p, w2);
      TrimEndBeforeSpace(TrimStart(p), w2);
    }
  }

  /** `a.startsWith(b)`, written with the arguments in the order (prefix, string). */
  predicate IsPrefix(p: string, s: string) {
    |p| <= |s| && s[..|p|] == p
  }

  /** `h.includes(n)`: `n` occurs somewhere in `h` (the empty string occurs everywhere). */
  predicate Includes(h: string, n: string)
    decreases |h|
  {
    IsPrefix(n, h) || (h != [] && Includes(h[1..], n))
  }

  /** `n` occurs in `h` starting at index `k`. */
  predicate OccursAt(h: string, n: string, k: int) {
    0 <= k && k + |n| <= |h| && h[k..k + |n|] == n
  }

  /** `Includes` is substring search: it holds exactly when `n` occurs at some index of `h`. */
  lemma {:induction false} IncludesIff(h: string, n: string)
    ensures Includes(h, n) <==> exists k :: OccursAt(h, n, k)
    decreases |h|
  {
    if IsPrefix(n, h) {
      assert OccursAt(h, n, 0);
    } else if h == [] {
      assert forall k :: !OccursAt(h, n, k);
    } else {
      IncludesIff(h[1..], n);
      if Includes(h[1..], n) {
        var k :| OccursAt(h[1..], n, k);
        OccursShift(h, n, k + 1);
      } else {
        forall k | 1 <= k && OccursAt(h, n, k) ensures OccursAt(h[1..], n, k - 1) {
          OccursShift(h, n, k);
        }
      }
    }
  }

  /** An occurrence past the first character is an occurrence in the rest, one index earlier. */
  lemma OccursShift(h: string, n: string, k: int)
    requires h != [] && 1 <= k
    ensures OccursAt(h, n, k) <==> OccursAt(h[1..], n, k - 1)
  {
    if k + |n| <= |h| {
      assert h[1..][k - 1..k - 1 + |n|] == h[k..k + |n|];
    }
  }

  /** Every string includes the empty string and itself. */
  lemma IncludesTrivial(h: string)
    ensures Includes(h, "") && Includes(h, h)
  {
    assert IsPrefix("", h) && IsPrefix(h, h);
  }

  /**
   * `s.split(',')`: the pieces between commas, in order. There is always at least
   * one piece (`''.split(',')` is `['']`), and no piece contains a comma.
   */
  function Split(s: string): (r: seq<string>)
    ensures |r| >= 1
  {
    if s == [] then [[]] else ConsPieces(s[0], Split(s[1..]))
  }

  /** The pieces of `[c] + t` from those of `t`: a comma opens a new empty piece, any other character joins the first. */
  function ConsPieces(c: char, rest: seq<string>): (r: seq<string>)
    requires |rest| >= 1
    ensures |r| >= 1
  {
    if c == ',' then [[]] + rest else [[c] + rest[0]] + rest[1..]
  }

  /** Extending the first piece does not touch pieces appended after the last. */
  lemma ConsPiecesAppend(c: char, ra: seq<string>, rb: seq<string>)
    requires |ra| >= 1
    ensures ConsPieces(c, ra + rb) == ConsPieces(c, ra) + rb
  {
    if c != ',' {
      assert (ra + rb)[0] == ra[0];
      assert (ra + rb)[1..] == ra[1..] + rb;
    }
  }

  /** No piece of a split contains a comma. */
  lemma {:induction false} SplitPiecesCommaFree(s: string)
    ensures forall i :: 0 <= i < |Split(s)| ==> ',' !in Split(s)[i]
  {
    if s != [] {
      SplitPiecesCommaFree(s[1..]);
      var rest := Split(s[1..]);
      if s[0] != ',' {
        assert ',' !in [s[0]] + rest[0] by {
          NoCommaConcat([s[0]], rest[0]);
        }
        var r := [[s[0]] + rest[0]] + rest[1..];
        forall i | 1 <= i < |r| ensures ',' !in r[i] { assert r[i] == rest[i]; }
      } else {
        var r := [[]] + rest;
        forall i | 1 <= i < |r| ensures ',' !in r[i] { assert r[i] == rest[i - 1]; }
      }
    }
  }

  /** `pieces.join(',')`. */
  function Join(pieces: seq<string>): string
    requires |pieces| >= 1
  {
    if |pieces| == 1 then pieces[0] else pieces[0] + [','] + Join(pieces[1..])
  }

  /** Splitting at the commas loses nothing: joining the pieces back gives the input. */
  lemma {:induction false} JoinSplit(s: string)
    ensures Join(Split(s)) == s
  {
    if s != [] {
      var rest := Split(s[1..]);
      JoinSplit(s[1..]);
      if s[0] == ',' {
        assert ([[]] + rest)[1..] == rest;
      } else if |rest| > 1 {
        var r := [[s[0]] + rest[0]] + rest[1..];
        assert r[1..] == rest[1..];
      }
    }
  }

  /** Joining comma-free pieces and splitting again gives the same pieces. */
  lemma {:induction false} SplitJoin(pieces: seq<string>)
    requires |pieces| >= 1
    requires forall i :: 0 <= i < |pieces| ==> ',' !in pieces[i]
    ensures Split(Join(pieces)) == pieces
  {
    if |pieces| == 1 {
      SplitNoComma(pieces[0]);
    } else {
      var rest := pieces[1..];
      assert forall i :: 0 <= i < |rest| ==> ',' !in rest[i] by {
        forall i | 0 <= i < |rest| ensures ',' !in rest[i] { assert rest[i] == pieces[i + 1]; }
      }
      SplitJoin(rest);
      assert Join(pieces) == pieces[0] + [','] + Join(rest);
      SplitAppend(pieces[0], Join(rest));
      SplitNoComma(pieces[0]);
      assert pieces == [pieces[0]] + rest;
    }
  }

  /** A string without commas is one piece. */
  lemma {:induction false} SplitNoComma(s: string)
    requires ',' !in s
    ensures Split(s) == [s]
  {
    if s != [] {
      assert ',' !in s[1..] by {
        forall i | 0 <= i < |s| - 1 ensures s[1..][i] != ',' { assert s[1..][i] == s[i + 1]; }
      }
      SplitNoComma(s[1..]);
      assert [s[0]] + s[1..] == s;
    }
  }

  /** A comma separates the pieces of what stands before it from those of what stands after it. */
  lemma {:induction false} SplitAppend(a: string, b: string)
    ensures Split(a + [','] + b) == Split(a) + Split(b)
  {
    if a == [] {
      assert a + [','] + b == [','] + b;
      SplitCons(',', b);
    } else {
      var a' := a[1..];
      assert a == [a[0]] + a';
      assert a + [','] + b == [a[0]] + (a' + [','] + b);
      SplitAppend(a', b);
      SplitAppendStep(a[0], a', b);
    }
  }

  /** One character in front of both sides of `SplitAppend` keeps it true. */
  lemma SplitAppendStep(c: char, a: string, b: string)
    requires Split(a + [','] + b) == Split(a) + Split(b)
    ensures Split([c] + (a + [','] + b)) == Split([c] + a) + Split(b)
  {
    SplitCons(c, a + [','] + b);
    SplitCons(c, a);
    ConsPiecesAppend(c, Split(a), Split(b));
  }

  /** How one leading character extends the pieces of a split. */
  lemma SplitCons(c: char, t: string)
    ensures Split([c] + t) == ConsPieces(c, Split(t))
  {
    assert ([c] + t)[0] == c && ([c] + t)[1..] == t;
  }

  /** Text without a comma in front of a string joins its first piece. */
  lemma {:induction false} SplitPrepend(w: string, t: string)
    requires ',' !in w
    ensures Split(w + t) == [w + Split(t)[0]] + Split(t)[1..]
  {
    if w != [] {
      assert ',' !in w[1..] by {
        forall i | 0 <= i < |w| - 1 ensures w[1..][i] != ',' { assert w[1..][i] == w[i + 1]; }
      }
      SplitPrepend(w[1..], t);
      assert w + t == [w[0]] + (w[1..] + t);
      SplitCons(w[0], w[1..] + t);
      PrependToFirstPiece(w[0], w[1..], Split(t));
      assert [w[0]] + w[1..] == w;
    } else {
      assert w + t == t;
      EmptyPrefixPiece(Split(t));
    }
  }

  /** A non-comma character in front of pieces whose first one starts with `w` extends that piece. */
  lemma PrependToFirstPiece(c: char, w: string, r: seq<string>)
    requires c != ',' && |r| >= 1
    ensures ConsPieces(c, [w + r[0]] + r[1..]) == [([c] + w) + r[0]] + r[1..]
  {
    var r' := [w + r[0]] + r[1..];
    assert r'[0] == w + r[0] && r'[1..] == r[1..];
    assert [c] + (w + r[0]) == ([c] + w) + r[0];
  }

  /** Any list of pieces, first piece written with an empty prefix. */
  lemma EmptyPrefixPiece(r: seq<string>)
    requires |r| >= 1
    ensures r == [[] + r[0]] + r[1..]
  {
    assert [] + r[0] == r[0];
  }

  /** Text without a comma after a string joins its last piece. */
  lemma SplitAppendText(t: string, w: string)
    requires ',' !in w
    ensures var p, q := Split(t), Split(t + w);
      |q| == |p| && q[..|p| - 1] == p[..|p| - 1] && q[|p| - 1] == p[|p| - 1] + w
  {
    JoinSplit(t);
    var p := Split(t);
    var n := |p|;
    if n == 1 {
      SplitPiecesCommaFree(t);
      NoCommaConcat(p[0], w);
      SplitNoComma(p[0] + w);
      assert t == p[0];
    } else {
      var last := p[n - 1] + w;
      var front := p[..n - 1];
      SplitJoinPieces(front, last, t, w);
    }
  }

  /** The pieces of `t + w` when `t` has several pieces: the front ones, then the last one extended by `w`. */
  lemma SplitJoinPieces(front: seq<string>, last: string, t: string, w: string)
    requires ',' !in w
    requires |Split(t)| >= 2 && front == Split(t)[..|Split(t)| - 1] && last == Split(t)[|Split(t)| - 1] + w
    ensures Split(t + w) == front + [last]
  {
    var p := Split(t);
    JoinSplit(t);
    JoinLast(p);
    var head := Join(front);
    assert t == head + [','] + p[|p| - 1];
    assert t + w == head + [','] + last;
    SplitAppend(head, last);
    SplitPiecesCommaFree(t);
    NoCommaConcat(p[|p| - 1], w);
    SplitNoComma(last);
    NoCommaPrefix(p, |p| - 1);
    SplitJoin(front);
  }

  lemma NoCommaConcat(x: string, y: string)
    requires ',' !in x && ',' !in y
    ensures ',' !in x + y
  {
    forall i | 0 <= i < |x + y| ensures (x + y)[i] != ',' {
      if i < |x| { assert (x + y)[i] == x[i]; } else { assert (x + y)[i] == y[i - |x|]; }
    }
  }

  lemma NoCommaPrefix(p: seq<string>, n: nat)
    requires n <= |p|
    requires forall i :: 0 <= i < |p| ==> ',' !in p[i]
    ensures forall i :: 0 <= i < n ==> ',' !in p[..n][i]
  {
    forall i | 0 <= i < n ensures ',' !in p[..n][i] { assert p[..n][i] == p[i]; }
  }

  /** Joining splits off the last piece. */
  lemma {:induction false} JoinLast(p: seq<string>)
    requires |p| >= 2
    ensures Join(p) == Join(p[..|p| - 1]) + [','] + p[|p| - 1]
  {
    if |p| > 2 {
      JoinLast(p[1..]);
      assert p[1..][..|p| - 2] == p[..|p| - 1][1..];
    }
  }

  /** `a < b` on strings: lexicographic order of the characters. */
  predicate LexLess(a: string, b: string)
    decreases |a|
  {
    if a == [] then b != []
    else if b == [] then false
    else if a[0] != b[0] then a[0] < b[0]
    else LexLess(a[1..], b[1..])
  }

  lemma {:induction false} LexLessIrreflexive(a: string)
    ensures !LexLess(a, a)
    decreases |a|
  {
    if a != [] { LexLessIrreflexive(a[1..]); }
  }

  lemma {:induction false} LexLessTransitive(a: string, b: string, c: string)
    requires LexLess(a, b) && LexLess(b, c)
    ensures LexLess(a, c)
    decreases |a|
  {
    if a != [] && b != [] && c != [] && a[0] == b[0] && b[0] == c[0] {
      LexLessTransitive(a[1..], b[1..], c[1..]);
    }
  }

  lemma {:induction false} LexLessAsymmetric(a: string, b: string)
    requires LexLess(a, b)
    ensures !LexLess(b, a)
    decreases |a|
  {
    if a != [] && a[0] == b[0] {
      LexLessAsymmetric(a[1..], b[1..]);
    }
  }

  /** Two different strings are always ordered one way or the other. */
  lemma {:induction false} LexLessTotal(a: string, b: string)
    requires a != b
    ensures LexLess(a, b) || LexLess(b, a)
    decreases |a|
  {
    if a != [] && b != [] && a[0] == b[0] {
      assert a == [a[0]] + a[1..] && b == [b[0]] + b[1..];
      LexLessTotal(a[1..], b[1..]);
    }
  }
}
