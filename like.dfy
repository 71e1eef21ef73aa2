/**
 * SQLite's `LIKE` operator, as the meal and ingredient searches use it, and the
 * pattern the meal search builds from a title query.
 */
module SqlLike {
  import opened PyText

  predicate IsWildcard(c: char) {
    c == '%' || c == '_'
  }

  /** Text in which no character is a `LIKE` wildcard. */
  predicate Literal(w: string) {
    forall i :: 0 <= i < |w| ==> !IsWildcard(w[i])
  }

  /** `s LIKE p` without an ESCAPE clause: `%` matches any run of characters, `_`
      any single character, and every other character matches itself, ignoring
      the case of ASCII letters. */
  predicate Like(p: string, s: string)
    decreases |p| + |s|
  {
    if p == [] then s == []
    else if p[0] == '%' then Like(p[1..], s) || (s != [] && Like(p, s[1..]))
    else s != [] && (p[0] == '_' || LowerChar(p[0]) == LowerChar(s[0])) && Like(p[1..], s[1..])
  }

  /** Two strings that differ at most in the case of ASCII letters. */
  predicate SameIgnoringCase(w: string, v: string) {
    |w| == |v| && forall i :: 0 <= i < |w| ==> LowerChar(w[i]) == LowerChar(v[i])
  }

  /** The pattern of the title filter: `"%" + "%".join(words) + "%"`. */
  function WordsPattern(ws: seq<string>): (p: string)
    ensures |p| >= 2 && p[0] == '%' && p[|p| - 1] == '%'
  {
    "%" + Join("%", ws) + "%"
  }

  // ---------------------------------------------------------------------------
  // Matching lemmas
  // ---------------------------------------------------------------------------

  /** A leading `%` lets the match start anywhere. */
  lemma {:induction false} PercentSkips(p: string, a: string, s: string)
    requires Like("%" + p, s)
    ensures Like("%" + p, a + s)
  {
    if a != [] {
      PercentSkips(p, a[1..], s);
      assert (a + s)[1..] == a[1..] + s;
    } else {
      assert a + s == s;
    }
  }

  /** `%` followed by `p` matches anything followed by a match of `p`. */
  lemma PercentAbsorbs(p: string, a: string, s: string)
    requires Like(p, s)
    ensures Like("%" + p, a + s)
  {
    assert ("%" + p)[1..] == p;
    PercentSkips(p, a, s);
  }

  /** The pattern `%` matches every string. */
  lemma PercentMatchesAll(s: string)
    ensures Like("%", s)
  {
    PercentAbsorbs("", s, "");
    assert "%" + "" == "%" && s + "" == s;
  }

  /** Text in the pattern matches the same text in any letter case: a `%` in it
      matches the `%` it stands against, a `_` any one character, and every
      other character itself. */
  lemma {:induction false} SameTextMatches(w: string, v: string, p: string, s: string)
    requires SameIgnoringCase(w, v)
    requires Like(p, s)
    ensures Like(w + p, v + s)
  {
    if w != [] {
      assert SameIgnoringCase(w[1..], v[1..]);
      SameTextMatches(w[1..], v[1..], p, s);
      var wp, vs := w + p, v + s;
      assert wp[0] == w[0] && wp[1..] == w[1..] + p;
      assert vs[0] == v[0] && vs[1..] == v[1..] + s;
      assert Like(wp[1..], vs[1..]);
      if wp[0] == '%' {
        assert Like(wp, vs[1..]);
      } else {
        assert LowerChar(wp[0]) == LowerChar(vs[0]);
      }
    } else {
      assert w + p == p && v + s == s;
    }
  }

  /** A pattern without wildcards matches exactly the strings that equal it up
      to the case of ASCII letters. */
  lemma {:induction false} LiteralLikeIff(w: string, v: string)
    requires Literal(w)
    ensures Like(w, v) <==> SameIgnoringCase(w, v)
    decreases |w|
  {
    if w != [] {
      assert !IsWildcard(w[0]) && Literal(w[1..]);
      if v != [] {
        LiteralLikeIff(w[1..], v[1..]);
        if SameIgnoringCase(w, v) {
          assert SameIgnoringCase(w[1..], v[1..]);
        } else if LowerChar(w[0]) == LowerChar(v[0]) && SameIgnoringCase(w[1..], v[1..]) {
          forall i | 0 <= i < |w| ensures LowerChar(w[i]) == LowerChar(v[i]) {
            if i > 0 {
              assert w[i] == w[1..][i - 1] && v[i] == v[1..][i - 1];
            }
          }
        }
      }
    }
  }

  /** The pattern of a word list, one word at a time. */
  lemma WordsPatternCons(w: string, rest: seq<string>)
    ensures WordsPattern([w] + rest) == "%" + (w + (if rest == [] then "%" else WordsPattern(rest)))
  {
    if rest != [] {
      assert ([w] + rest)[1..] == rest;
      assert Join("%", [w] + rest) == w + "%" + Join("%", rest);
    }
  }

  /** One word of the query: `%`, the word, then the pattern of the rest. */
  lemma WordStepMatches(n: string, i: nat, j: nat, k: nat, q: string, b: string)
    requires i <= j <= k <= |n|
    requires Like(q, n[k..] + b)
    ensures Like("%" + (n[j..k] + q), n[i..] + b)
  {
    var w, rest := n[j..k], n[k..] + b;
    SameTextMatches(w, w, q, rest);
    PercentAbsorbs(w + q, n[i..j], w + rest);
    SplitSuffix(n, i, j, k, b);
  }

  lemma SplitSuffix(n: string, i: nat, j: nat, k: nat, b: string)
    requires i <= j <= k <= |n|
    ensures n[i..] + b == n[i..j] + (n[j..k] + (n[k..] + b))
  {
    assert n[j..] == n[j..k] + n[k..];
    assert n[i..] == n[i..j] + n[j..];
  }

  /** `Like` on the pattern of the words of `n[i..]`, against `n[i..] + b`. */
  lemma {:induction false} WordsPatternFindsSuffix(n: string, i: nat, b: string)
    requires i <= |n|
    ensures Like(WordsPattern(WordsFrom(n, i)), n[i..] + b)
    decreases |n| - i
  {
    var j := SkipSpace(n, i);
    if j == |n| {
      PercentMatchesAll("");
      PercentAbsorbs("%", n[i..] + b, "");
      assert WordsPattern([]) == "%" + "%";
      assert n[i..] + b + "" == n[i..] + b;
    } else {
      var k := SkipWord(n, j);
      var rest := WordsFrom(n, k);
      assert WordsFrom(n, i) == [n[j..k]] + rest;
      var q := if rest == [] then "%" else WordsPattern(rest);
      if rest == [] {
        PercentMatchesAll(n[k..] + b);
      } else {
        WordsPatternFindsSuffix(n, k, b);
      }
      WordsPatternCons(n[j..k], rest);
      WordStepMatches(n, i, j, k, q, b);
    }
  }

  /** The title filter finds every title that holds the query: `%` + its words
      joined by `%` + `%` matches `a + n + b` for all `a` and `b`, wildcards in
      the query included. */
  lemma WordsPatternFindsQuery(n: string, a: string, b: string)
    ensures Like(WordsPattern(Words(n)), a + n + b)
  {
    WordsPatternFindsAll(n, a, b);
  }

  lemma WordsPatternFindsAll(n: string, a: string, b: string)
    ensures Like(WordsPattern(WordsFrom(n, 0)), a + n + b)
  {
    WordsPatternFindsSuffix(n, 0, b);
    assert n[0..] == n;
    var inner := Join("%", WordsFrom(n, 0)) + "%";
    assert WordsPattern(WordsFrom(n, 0)) == "%" + inner;
    PercentSkips(inner, a, n + b);
    assert a + n + b == a + (n + b);
  }

  /** A `%`-wrapped query finds every string that holds it in any letter case. */
  lemma ContainsPatternFinds(w: string, a: string, v: string, b: string)
    requires SameIgnoringCase(w, v)
    ensures Like("%" + w + "%", a + v + b)
  {
    PercentMatchesAll(b);
    SameTextMatches(w, v, "%", b);
    PercentAbsorbs(w + "%", a, v + b);
    assert "%" + w + "%" == "%" + (w + "%");
    assert a + v + b == a + (v + b);
  }
}
