/**
 * The string behaviour of the Python runtime and libraries that the handlers
 * rely on: truthiness of optional form values, `int()` on a string,
 * `str.split()` with no separator, `"sep".join`, `str.lower()` and the
 * `unidecode` transliteration.
 */
module PyText {
  import opened Wrappers

  /** `if request.form.get(k):` -- a missing key and the empty string are both false;
      every other string, "0" included, is true. */
  predicate Given(o: Option<string>) {
    o.Some? && o.value != ""
  }

  /** The code points for which Python's `str.isspace()` holds: the characters
      `str.split()` splits on. */
  predicate IsSpace(c: char) {
    var k := c as int;
    (9 <= k <= 13) || (28 <= k <= 32) || k == 0x85 || k == 0xA0 || k == 0x1680
    || (0x2000 <= k <= 0x200A) || k == 0x2028 || k == 0x2029 || k == 0x202F
    || k == 0x205F || k == 0x3000
  }

  /** The characters `int()` strips from a string: ASCII characters are kept as
      they are and only tab, line feed, vertical tab, form feed, carriage return
      and space count as whitespace among them (the separators U+001C to U+001F
      do not); every non-ASCII `str.isspace()` character is whitespace too. */
  predicate IsIntSpace(c: char) {
    var k := c as int;
    (9 <= k <= 13) || k == 32 || (k >= 128 && IsSpace(c))
  }

  predicate IsDigit(c: char) {
    '0' <= c <= '9'
  }

  predicate IsAscii(s: string) {
    forall i :: 0 <= i < |s| ==> s[i] as int < 128
  }

  // ---------------------------------------------------------------------------
  // Whitespace stripping
  // ---------------------------------------------------------------------------

  function StripLeft(s: string): (r: string)
    ensures |r| <= |s| && r == s[|s| - |r|..]
    ensures r == [] || !IsIntSpace(r[0])
  {
    if s != [] && IsIntSpace(s[0]) then StripLeft(s[1..]) else s
  }

  function StripRight(s: string): (r: string)
    ensures |r| <= |s| && r == s[..|r|]
    ensures r == [] || !IsIntSpace(r[|r| - 1])
  {
    if s != [] && IsIntSpace(s[|s| - 1]) then StripRight(s[..|s| - 1]) else s
  }

  function Strip(s: string): string {
    StripRight(StripLeft(s))
  }

  // ---------------------------------------------------------------------------
  // int() on a string
  // ---------------------------------------------------------------------------

  /** A run of ASCII digits in which single underscores may separate digits. */
  predicate IsNumeral(b: string) {
    && |b| > 0
    && IsDigit(b[0])
    && IsDigit(b[|b| - 1])
    && (forall i :: 0 <= i < |b| ==> IsDigit(b[i]) || b[i] == '_')
    && (forall i :: 0 <= i < |b| - 1 ==> b[i] == '_' ==> b[i + 1] != '_')
  }

  /** The value of a numeral, read from its last digit; underscores are skipped. */
  function NumeralValue(b: string): (v: int)
    ensures (forall i :: 0 <= i < |b| ==> IsDigit(b[i]) || b[i] == '_') ==> v >= 0
  {
    if b == [] then 0
    else if b[|b| - 1] == '_' then NumeralValue(b[..|b| - 1])
    else NumeralValue(b[..|b| - 1]) * 10 + (b[|b| - 1] as int - '0' as int)
  }

  /** The default limit on the digits `int()` reads from a string (CPython 3.11
      and later, and the security releases of 3.7 to 3.10): a numeral with more
      digits raises ValueError, leading zeros included. */
  const MaxStrDigits := 4300

  /** The number of digits of a numeral; underscores do not count. */
  function DigitCount(b: string): nat {
    if b == [] then 0
    else DigitCount(b[..|b| - 1]) + (if IsDigit(b[|b| - 1]) then 1 else 0)
  }

  /** Python's `int(s)` for a string `s`: surrounding whitespace is ignored, then an
      optional sign and a numeral of at most `MaxStrDigits` digits; anything else
      raises ValueError (None here). */
  function ParseInt(s: string): (r: Option<int>)
    ensures r.Some? ==> Strip(s) != []
    ensures r.Some? && r.value < 0 ==> Strip(s)[0] == '-'
  {
    var t := Strip(s);
    if |t| > 0 && (t[0] == '+' || t[0] == '-') then
      if IsNumeral(t[1..]) && DigitCount(t[1..]) <= MaxStrDigits then
        Some(if t[0] == '-' then -NumeralValue(t[1..]) else NumeralValue(t[1..]))
      else None
    else if IsNumeral(t) && DigitCount(t) <= MaxStrDigits then Some(NumeralValue(t))
    else None
  }

  lemma {:induction false} DigitCountOfDigits(s: string)
    requires forall i :: 0 <= i < |s| ==> IsDigit(s[i])
    ensures DigitCount(s) == |s|
  {
    if s != [] {
      DigitCountOfDigits(s[..|s| - 1]);
    }
  }

  /** Python's `str(n)` for a non-negative integer. */
  function ShowNat(n: nat): (r: string)
    ensures |r| > 0
    ensures forall i :: 0 <= i < |r| ==> IsDigit(r[i])
  {
    if n < 10 then [('0' as int + n) as char]
    else ShowNat(n / 10) + [('0' as int + n % 10) as char]
  }

  /** A run of ASCII digits is read as its decimal value when it has at most
      `MaxStrDigits` digits, and refused when it has more. */
  lemma DigitsParse(s: string)
    requires s != [] && forall i :: 0 <= i < |s| ==> IsDigit(s[i])
    ensures ParseInt(s) == if |s| <= MaxStrDigits then Some(NumeralValue(s)) else None
  {
    assert IsDigit(s[0]) && IsDigit(s[|s| - 1]);
    DigitCountOfDigits(s);
    StripLeftKeeps(s);
    StripRightKeeps(s);
    assert s[0] != '+' && s[0] != '-';
    assert IsNumeral(s);
  }

  /** Python's `str(n)`; the model writes every integer, although `str()` itself
      refuses more than `MaxStrDigits` digits. */
  function Show(n: int): string {
    if n < 0 then "-" + ShowNat(-n) else ShowNat(n)
  }

  /** The number of digits in the decimal rendering of `n`. */
  function ShownDigits(n: int): nat {
    |ShowNat(if n < 0 then -n else n)|
  }

  lemma {:induction false} NumeralValueOfShowNat(n: nat)
    ensures NumeralValue(ShowNat(n)) == n
  {
    if n >= 10 {
      var s := ShowNat(n);
      assert s[..|s| - 1] == ShowNat(n / 10);
      NumeralValueOfShowNat(n / 10);
    }
  }

  lemma ShowNatIsNumeral(m: nat)
    ensures IsNumeral(ShowNat(m))
    ensures !IsIntSpace(ShowNat(m)[0]) && !IsIntSpace(ShowNat(m)[|ShowNat(m)| - 1])
  {
    var d := ShowNat(m);
    assert IsDigit(d[0]) && IsDigit(d[|d| - 1]);
  }

  lemma StripOfShow(n: int)
    ensures Strip(Show(n)) == Show(n)
  {
    var m := if n < 0 then -n else n;
    ShowNatIsNumeral(m);
    var s := Show(n);
    assert !IsIntSpace(s[0]);
    assert StripLeft(s) == s;
    assert !IsIntSpace(s[|s| - 1]);
    assert StripRight(s) == s;
  }

  /** `int(str(n)) == n`: parsing reads back every decimal rendering of at most
      `MaxStrDigits` digits, and refuses every longer one. */
  lemma ParseIntOfShow(n: int)
    ensures ParseInt(Show(n)) == if ShownDigits(n) <= MaxStrDigits then Some(n) else None
  {
    var m := if n < 0 then -n else n;
    var d := ShowNat(m);
    NumeralValueOfShowNat(m);
    ShowNatIsNumeral(m);
    DigitCountOfDigits(d);
    StripOfShow(n);
    var s := Show(n);
    if n < 0 {
      assert s[0] == '-' && s[1..] == d;
    } else {
      assert s == d && (s[0] != '+' && s[0] != '-');
    }
  }

  lemma StripLeftCons(c: char, s: string)
    requires IsIntSpace(c)
    ensures StripLeft([c] + s) == StripLeft(s)
  {
    assert ([c] + s)[1..] == s;
  }

  lemma StripLeftKeeps(s: string)
    requires s != [] && !IsIntSpace(s[0])
    ensures StripLeft(s) == s
  {
  }

  lemma StripRightSnoc(s: string, c: char)
    requires IsIntSpace(c)
    ensures StripRight(s + [c]) == StripRight(s)
  {
    assert (s + [c])[..|s|] == s;
  }

  lemma StripRightKeeps(s: string)
    requires s != [] && !IsIntSpace(s[|s| - 1])
    ensures StripRight(s) == s
  {
  }

  /** `int()` reads only what is left after stripping. */
  lemma SameStrip(s: string, t: string)
    requires Strip(s) == Strip(t)
    ensures ParseInt(s) == ParseInt(t)
  {
  }

  lemma SameStripLeft(s: string, t: string)
    requires StripLeft(s) == StripLeft(t)
    ensures Strip(s) == Strip(t)
  {
  }

  lemma FiveParses()
    ensures Strip("5") == "5" && ParseInt("5") == Some(5)
  {
    DigitsParse("5");
  }

  /** `int()` ignores surrounding spaces and newlines. */
  lemma IntStripsSpaces()
    ensures ParseInt(" 5\n") == Some(5)
  {
    var t := "5" + ['\n'];
    assert " 5\n" == [' '] + t;
    StripLeftCons(' ', t);
    StripLeftKeeps(t);
    StripRightSnoc("5", '\n');
    StripRightKeeps("5");
    assert Strip(" 5\n") == Strip("5");
    FiveParses();
    SameStrip(" 5\n", "5");
  }

  /** `int()` ignores non-ASCII whitespace such as U+00A0. */
  lemma IntStripsNoBreakSpace()
    ensures ParseInt("\U{A0}5") == Some(5)
  {
    assert "\U{A0}5" == ['\U{A0}'] + "5";
    StripLeftCons('\U{A0}', "5");
    StripLeftKeeps("5");
    SameStripLeft("\U{A0}5", "5");
    FiveParses();
    SameStrip("\U{A0}5", "5");
  }

  /** `int()` refuses 4300 zeros followed by a 5: leading zeros count toward the
      digit limit, although the value is small. */
  lemma IntRefusesLongNumeral()
    ensures ParseInt(seq(MaxStrDigits, i => '0') + "5") == None
  {
    var s := seq(MaxStrDigits, i => '0') + "5";
    assert forall i :: 0 <= i < |s| ==> IsDigit(s[i]);
    DigitsParse(s);
  }

  /** `int()` keeps the ASCII separator U+001C, although `str.isspace()` holds
      for it, and so refuses the text. */
  lemma IntKeepsSeparator()
    ensures IsSpace('\U{1C}') && ParseInt("\U{1C}5") == None
  {
  }

  // ---------------------------------------------------------------------------
  // unidecode and str.lower()
  // ---------------------------------------------------------------------------

  /** `unidecode.unidecode(s)`: every ASCII character is kept as it is and every
      other character is replaced by its entry in the transliteration table. */
  function Unidecode(table: char -> string, s: string): (r: string)
    ensures IsAscii(s) ==> r == s
    ensures (forall c :: IsAscii(table(c))) ==> IsAscii(r)
  {
    if s == [] then []
    else (if s[0] as int < 128 then [s[0]] else table(s[0])) + Unidecode(table, s[1..])
  }

  function LowerChar(c: char): char {
    if 'A' <= c <= 'Z' then (c as int + 32) as char else c
  }

  /** `str.lower()` on ASCII text: upper-case letters become lower-case. */
  function Lower(s: string): (r: string)
    ensures |r| == |s|
    ensures forall i :: 0 <= i < |r| ==> !('A' <= r[i] <= 'Z') && LowerChar(r[i]) == LowerChar(s[i])
    ensures forall i :: 0 <= i < |r| ==> (r[i] == s[i] <==> !('A' <= s[i] <= 'Z'))
  {
    seq(|s|, i requires 0 <= i < |s| => LowerChar(s[i]))
  }

  // ---------------------------------------------------------------------------
  // str.split() and str.join()
  // ---------------------------------------------------------------------------

  /** The first position at or after `i` that is not whitespace (or the end). */
  function SkipSpace(s: string, i: nat): (j: nat)
    requires i <= |s|
    ensures i <= j <= |s|
    ensures j == |s| || !IsSpace(s[j])
    decreases |s| - i
  {
    if i == |s| || !IsSpace(s[i]) then i else SkipSpace(s, i + 1)
  }

  /** Everything `SkipSpace` skips is whitespace. */
  lemma {:induction false} SkipSpaceSkips(s: string, i: nat)
    requires i <= |s|
    ensures forall m :: i <= m < SkipSpace(s, i) ==> IsSpace(s[m])
    decreases |s| - i
  {
    if i < |s| && IsSpace(s[i]) {
      SkipSpaceSkips(s, i + 1);
    }
  }

  /** The first position at or after `i` that is whitespace (or the end). */
  function SkipWord(s: string, i: nat): (j: nat)
    requires i <= |s|
    ensures i <= j <= |s|
    ensures j == |s| || IsSpace(s[j])
    decreases |s| - i
  {
    if i == |s| || IsSpace(s[i]) then i else SkipWord(s, i + 1)
  }

  /** Nothing `SkipWord` skips is whitespace. */
  lemma {:induction false} SkipWordSkips(s: string, i: nat)
    requires i <= |s|
    ensures forall m :: i <= m < SkipWord(s, i) ==> !IsSpace(s[m])
    decreases |s| - i
  {
    if i < |s| && !IsSpace(s[i]) {
      SkipWordSkips(s, i + 1);
    }
  }

  /** A non-empty run of characters none of which is whitespace. */
  predicate IsWord(w: string) {
    w != [] && forall m :: 0 <= m < |w| ==> !IsSpace(w[m])
  }

  /** The words of `s[i..]`. */
  function WordsFrom(s: string, i: nat): (ws: seq<string>)
    requires i <= |s|
    ensures |ws| <= |s| - i
    decreases |s| - i
  {
    var j := SkipSpace(s, i);
    if j == |s| then []
    else
      var k := SkipWord(s, j);
      [s[j..k]] + WordsFrom(s, k)
  }

  /** Every word read is non-empty and holds no whitespace. */
  lemma {:induction false} WordsFromAreWords(s: string, i: nat)
    requires i <= |s|
    ensures forall n :: 0 <= n < |WordsFrom(s, i)| ==> IsWord(WordsFrom(s, i)[n])
    decreases |s| - i
  {
    var j := SkipSpace(s, i);
    if j < |s| {
      var k := SkipWord(s, j);
      SkipWordSkips(s, j);
      WordsFromAreWords(s, k);
      var w := s[j..k];
      forall m | 0 <= m < |w| ensures !IsSpace(w[m]) {
        assert w[m] == s[j + m];
      }
      assert IsWord(w);
      assert WordsFrom(s, i) == [w] + WordsFrom(s, k);
    }
  }

  /** `s.split()`: the maximal whitespace-free runs of `s`, in order. */
  function Words(s: string): (ws: seq<string>)
    ensures forall n :: 0 <= n < |ws| ==> IsWord(ws[n])
    ensures (forall m :: 0 <= m < |s| ==> IsSpace(s[m])) ==> ws == []
    ensures s != [] && (forall m :: 0 <= m < |s| ==> !IsSpace(s[m])) ==> ws == [s]
  {
    SingleWord(s);
    WordsFromAreWords(s, 0);
    WordsFrom(s, 0)
  }

  /** Text without whitespace is one word. */
  lemma SingleWord(s: string)
    ensures s != [] && (forall m :: 0 <= m < |s| ==> !IsSpace(s[m])) ==> WordsFrom(s, 0) == [s]
  {
    if s != [] && (forall m :: 0 <= m < |s| ==> !IsSpace(s[m])) {
      assert SkipSpace(s, 0) == 0 && SkipWord(s, 0) == |s|;
      assert s[0..|s|] == s;
    }
  }

  /** `sep.join(ws)`. */
  function Join(sep: string, ws: seq<string>): (r: string)
    ensures ws == [] ==> r == []
    ensures ws != [] ==> |ws[0]| <= |r| && r[..|ws[0]|] == ws[0]
    ensures ws != [] ==> |ws[|ws| - 1]| <= |r| && r[|r| - |ws[|ws| - 1]|..] == ws[|ws| - 1]
  {
    if ws == [] then []
    else if |ws| == 1 then ws[0]
    else ws[0] + sep + Join(sep, ws[1..])
  }

  /** From position `d` on, `s` is `b`. */
  predicate SuffixAt(s: string, d: nat, b: string) {
    d + |b| == |s| && forall x :: 0 <= x < |b| ==> s[d + x] == b[x]
  }

  /** Skipping whitespace in `s` after `d` is skipping it in `b`. */
  lemma {:induction false} SkipSpaceShift(s: string, d: nat, b: string, k: nat)
    requires SuffixAt(s, d, b) && k <= |b|
    ensures SkipSpace(s, d + k) == d + SkipSpace(b, k)
    decreases |b| - k
  {
    if k < |b| {
      assert s[d + k] == b[k];
      if IsSpace(b[k]) {
        SkipSpaceShift(s, d, b, k + 1);
      }
    }
  }

  /** Skipping a word in `s` after `d` is skipping it in `b`. */
  lemma {:induction false} SkipWordShift(s: string, d: nat, b: string, k: nat)
    requires SuffixAt(s, d, b) && k <= |b|
    ensures SkipWord(s, d + k) == d + SkipWord(b, k)
    decreases |b| - k
  {
    if k < |b| {
      assert s[d + k] == b[k];
      if !IsSpace(b[k]) {
        SkipWordShift(s, d, b, k + 1);
      }
    }
  }

  /** The words of `s` after `d` are the words of `b`. */
  lemma {:induction false} WordsFromShift(s: string, d: nat, b: string, k: nat)
    requires SuffixAt(s, d, b) && k <= |b|
    ensures WordsFrom(s, d + k) == WordsFrom(b, k)
    decreases |b| - k
  {
    var j := SkipSpace(b, k);
    if j < |b| {
      var m := SkipWord(b, j);
      var w := b[j..m];
      WordsFromShift(s, d, b, m);
      ShiftedWordAt(s, d, b, k, j, m, w);
      WordsFromAt(b, k, j, m, w);
      SameAfterHead(WordsFrom(s, d + k), WordsFrom(b, k), w, WordsFrom(s, d + m), WordsFrom(b, m));
    } else {
      ShiftedEnd(s, d, b, k);
      WordsFromNext(b, k);
    }
  }

  /** The word `b` holds from `j` to `m` is read at the same place in `s`. */
  lemma ShiftedWordAt(s: string, d: nat, b: string, k: nat, j: nat, m: nat, w: string)
    requires SuffixAt(s, d, b)
    requires k <= j < |b| && SkipSpace(b, k) == j && SkipWord(b, j) == m && b[j..m] == w
    ensures WordsFrom(s, d + k) == [w] + WordsFrom(s, d + m)
  {
    SkipSpaceShift(s, d, b, k);
    SkipWordShift(s, d, b, j);
    SliceShift(s, d, b, j, m);
    WordsFromAt(s, d + k, d + j, d + m, w);
  }

  /** Whitespace to the end of `b` is whitespace to the end of `s`. */
  lemma ShiftedEnd(s: string, d: nat, b: string, k: nat)
    requires SuffixAt(s, d, b) && k <= |b| && SkipSpace(b, k) == |b|
    ensures WordsFrom(s, d + k) == []
  {
    SkipSpaceShift(s, d, b, k);
    WordsFromNext(s, d + k);
  }

  lemma SliceShift(s: string, d: nat, b: string, j: nat, m: nat)
    requires SuffixAt(s, d, b) && j <= m <= |b|
    ensures s[d + j..d + m] == b[j..m]
  {
  }

  lemma SameAfterHead(x: seq<string>, y: seq<string>, w: string, u: seq<string>, v: seq<string>)
    requires x == [w] + u && y == [w] + v && u == v
    ensures x == y
  {
  }

  /** One step of reading words. */
  lemma WordsFromNext(s: string, i: nat)
    requires i <= |s| && SkipSpace(s, i) == |s|
    ensures WordsFrom(s, i) == []
  {
  }

  /** Reading the word from `j` to `k` after the whitespace from `i`. */
  lemma WordsFromAt(s: string, i: nat, j: nat, k: nat, w: string)
    requires i <= j < k <= |s| && SkipSpace(s, i) == j && SkipWord(s, j) == k && s[j..k] == w
    ensures WordsFrom(s, i) == [w] + WordsFrom(s, k)
  {
  }

  /** A word followed by a space is read first, and the rest is read after it. */
  lemma WordsOfCons(w: string, r: string)
    requires IsWord(w)
    ensures WordsFrom(w + " " + r, 0) == [w] + WordsFrom(r, 0)
  {
    var s := w + " " + r;
    assert s == (w + " ") + r;
    forall m | 0 <= m < |w| ensures !IsSpace(s[m]) {
      assert s[m] == w[m];
    }
    assert s[|w|] == ' ';
    assert SkipSpace(s, 0) == 0;
    SkipWordSkips(s, 0);
    assert SkipWord(s, 0) == |w|;
    assert s[0..|w|] == w;
    assert WordsFrom(s, 0) == [w] + WordsFrom(s, |w|);
    assert SkipSpace(s, |w|) == SkipSpace(s, |w| + 1);
    ConsSuffix(w, r);
    WordsFromShift(s, |w| + 1, r, 0);
  }

  lemma ConsSuffix(w: string, r: string)
    ensures SuffixAt(w + " " + r, |w| + 1, r)
  {
    var s := w + " " + r;
    forall x | 0 <= x < |r| ensures s[|w| + 1 + x] == r[x] {
    }
  }

  /** One more word in front of a joined list that splits back. */
  lemma JoinStep(ws: seq<string>)
    requires |ws| > 1 && IsWord(ws[0]) && WordsFrom(Join(" ", ws[1..]), 0) == ws[1..]
    ensures WordsFrom(Join(" ", ws), 0) == ws
  {
    var r := Join(" ", ws[1..]);
    JoinFront(ws);
    WordsOfCons(ws[0], r);
    HeadTail(ws);
    SameAfterHead(WordsFrom(Join(" ", ws), 0), ws, ws[0], WordsFrom(r, 0), ws[1..]);
  }

  lemma HeadTail(ws: seq<string>)
    requires ws != []
    ensures ws == [ws[0]] + ws[1..]
  {
  }

  lemma JoinFront(ws: seq<string>)
    requires |ws| > 1
    ensures Join(" ", ws) == ws[0] + " " + Join(" ", ws[1..])
  {
  }

  lemma JoinOne(ws: seq<string>)
    requires |ws| == 1 && IsWord(ws[0])
    ensures WordsFrom(Join(" ", ws), 0) == ws
  {
  }

  /** The words of a joined list are the list. */
  lemma {:induction false} JoinSplits(ws: seq<string>)
    requires forall n :: 0 <= n < |ws| ==> IsWord(ws[n])
    ensures WordsFrom(Join(" ", ws), 0) == ws
  {
    if ws == [] {
      assert Join(" ", ws) == [];
    } else if |ws| == 1 {
      JoinOne(ws);
    } else {
      assert IsWord(ws[0]);
      JoinSplits(ws[1..]);
      JoinStep(ws);
    }
  }

  /** `" ".join(ws).split() == ws` for non-empty words without whitespace. */
  lemma SplitOfJoin(ws: seq<string>)
    requires forall n :: 0 <= n < |ws| ==> IsWord(ws[n])
    ensures Words(Join(" ", ws)) == ws
  {
    JoinSplits(ws);
  }
}
