/**
 * The Python string operations the scheduler relies on, over `seq<char>`:
 * `str.strip()`, `str.split(sep)`, `str.split()`, `str.replace` of one
 * character, the substring test `t in s`, `str.isdigit()`, `int()` of a
 * digit string and `str()` of a natural number.
 */
module Text {

  import opened Wrappers

  /** Python's `str.isspace()`: the code points Python treats as whitespace. */
  predicate IsSpace(c: char) {
    c == ' ' || ('\t' <= c <= '\r') || ('\U{1C}' <= c <= '\U{1F}')
    || c == '\U{85}' || c == '\U{A0}' || c == '\U{1680}'
    || ('\U{2000}' <= c <= '\U{200A}') || c == '\U{2028}' || c == '\U{2029}'
    || c == '\U{202F}' || c == '\U{205F}' || c == '\U{3000}'
  }

  /** A non-empty run of characters without whitespace: what `str.split()` yields. */
  predicate IsWord(s: string) {
    |s| > 0 && forall i :: 0 <= i < |s| ==> !IsSpace(s[i])
  }

  // ---------------------------------------------------------------- strip

  function StripLeft(s: string): (r: string)
    ensures r == [] || !IsSpace(r[0])
    ensures forall i :: 0 <= i < |s| - |r| ==> IsSpace(s[i])
  {
    if s != [] && IsSpace(s[0]) then StripLeft(s[1..]) else s
  }

  /** `StripLeft` keeps a suffix of its input. */
  lemma {:induction false} StripLeftSuffix(s: string)
    ensures |StripLeft(s)| <= |s| && StripLeft(s) == s[|s| - |StripLeft(s)|..]
  {
    if s != [] && IsSpace(s[0]) {
      StripLeftSuffix(s[1..]);
      assert s[1..][|s[1..]| - |StripLeft(s)|..] == s[|s| - |StripLeft(s)|..];
    }
  }

  function StripRight(s: string): (r: string)
    ensures |r| <= |s| && r == s[..|r|]
    ensures r == [] || !IsSpace(r[|r| - 1])
    ensures forall i :: |r| <= i < |s| ==> IsSpace(s[i])
  {
    if s != [] && IsSpace(s[|s| - 1]) then StripRight(s[..|s| - 1]) else s
  }

  /** Python's `str.strip()` with no argument. */
  function Strip(s: string): (r: string)
    ensures r == [] || (!IsSpace(r[0]) && !IsSpace(r[|r| - 1]))
  {
    StripRight(StripLeft(s))
  }

  /** Stripping adds no character: one absent from the text is absent from the result. */
  lemma StripAbsent(s: string, c: char)
    requires c !in s
    ensures c !in Strip(s)
  {
    StripLeftSuffix(s);
    var l := StripLeft(s);
    assert c !in l;
  }

  /** Stripping removes only surrounding whitespace: text without it is unchanged. */
  lemma StripKeeps(s: string)
    requires s == [] || (!IsSpace(s[0]) && !IsSpace(s[|s| - 1]))
    ensures Strip(s) == s
  {
  }

  /**
   * `strip()` removes whitespace from the two ends and nothing else: the
   * text is the result with only whitespace before and after it.
   */
  lemma StripSlice(s: string)
    ensures exists pre, post :: IsBlank(pre) && IsBlank(post) && s == pre + Strip(s) + post
  {
    StripLeftSuffix(s);
    BlankAround(s, StripLeft(s), Strip(s));
  }

  /** A suffix `l` after whitespace, and a prefix `r` of `l` before whitespace, make `s` blank around `r`. */
  lemma BlankAround(s: string, l: string, r: string)
    requires |l| <= |s| && l == s[|s| - |l|..] && forall k :: 0 <= k < |s| - |l| ==> IsSpace(s[k])
    requires |r| <= |l| && r == l[..|r|] && forall k :: |r| <= k < |l| ==> IsSpace(l[k])
    ensures exists pre, post :: IsBlank(pre) && IsBlank(post) && s == pre + r + post
  {
    var pre, post := s[..|s| - |l|], l[|r|..];
    assert s == pre + l;
    assert l == r + post;
    assert IsBlank(pre);
    assert IsBlank(post);
  }

  lemma StripWord(s: string)
    requires IsWord(s)
    ensures Strip(s) == s
  {
    StripKeeps(s);
  }

  // ---------------------------------------------------------------- split on one separator

  function IndexOf(s: string, c: char): (k: nat)
    requires c in s
    ensures k < |s| && s[k] == c && c !in s[..k]
  {
    if s[0] == c then 0 else 1 + IndexOf(s[1..], c)
  }

  /** Python's `s.split(sep)` for a one-character separator. */
  function Split(s: string, sep: char): (parts: seq<string>)
    ensures |parts| >= 1
    ensures forall i :: 0 <= i < |parts| ==> sep !in parts[i]
    decreases |s|
  {
    if sep !in s then [s]
    else
      var k := IndexOf(s, sep);
      [s[..k]] + Split(s[k + 1..], sep)
  }

  /** `sep.join(parts)`. */
  function Join(parts: seq<string>, sep: char): string
    requires |parts| >= 1
  {
    if |parts| == 1 then parts[0] else parts[0] + [sep] + Join(parts[1..], sep)
  }

  /** Joining what `Split` produced gives back the text. */
  lemma {:induction false} JoinSplit(s: string, sep: char)
    ensures Join(Split(s, sep), sep) == s
    decreases |s|
  {
    if sep in s {
      var k := IndexOf(s, sep);
      var head, tail := s[..k], s[k + 1..];
      assert Split(s, sep) == [head] + Split(tail, sep);
      JoinCons(head, Split(tail, sep), sep);
      JoinSplit(tail, sep);
      assert s == head + [sep] + tail;
    } else {
      assert Split(s, sep) == [s];
    }
  }

  lemma JoinCons(head: string, parts: seq<string>, sep: char)
    requires |parts| >= 1
    ensures Join([head] + parts, sep) == head + [sep] + Join(parts, sep)
  {
    assert ([head] + parts)[1..] == parts;
  }

  /** Splitting a join of separator-free parts gives back the parts. */
  lemma {:induction false} SplitJoin(parts: seq<string>, sep: char)
    requires |parts| >= 1
    requires forall i :: 0 <= i < |parts| ==> sep !in parts[i]
    ensures Split(Join(parts, sep), sep) == parts
  {
    if |parts| > 1 {
      var a, rest := parts[0], Join(parts[1..], sep);
      assert Join(parts, sep) == a + ([sep] + rest);
      SplitAfterFree(a, rest, sep);
      SplitJoin(parts[1..], sep);
      assert parts == [a] + parts[1..];
    }
  }

  /** A separator-free head is split off as the first part. */
  lemma SplitAfterFree(a: string, rest: string, sep: char)
    requires sep !in a
    ensures Split(a + ([sep] + rest), sep) == [a] + Split(rest, sep)
  {
    var s := a + ([sep] + rest);
    IndexOfAfterFree(a, [sep] + rest, sep);
    assert s[..|a|] == a;
    assert s[|a| + 1..] == rest;
  }

  lemma {:induction false} IndexOfAfterFree(a: string, b: string, c: char)
    requires c !in a && b != [] && b[0] == c
    ensures c in a + b && IndexOf(a + b, c) == |a|
  {
    assert (a + b)[|a|] == c;
    if a != [] {
      assert (a + b)[1..] == a[1..] + b;
      IndexOfAfterFree(a[1..], b, c);
    }
  }

  /** The two-part case the English-date parser checks for. */
  lemma SplitTwo(a: string, b: string, sep: char)
    requires sep !in a && sep !in b
    ensures Split(a + [sep] + b, sep) == [a, b]
  {
    SplitJoin([a, b], sep);
  }

  /** The three-part case of a `DD-MM-YYYY` text. */
  lemma SplitThree(a: string, b: string, c: string, sep: char)
    requires sep !in a && sep !in b && sep !in c
    ensures Split(a + [sep] + b + [sep] + c, sep) == [a, b, c]
  {
    var parts := [a, b, c];
    assert parts[1..] == [b, c] && parts[1..][1..] == [c];
    assert Join(parts[1..], sep) == b + [sep] + c;
    assert Join(parts, sep) == a + [sep] + (b + [sep] + c);
    assert a + [sep] + (b + [sep] + c) == a + [sep] + b + [sep] + c;
    forall i | 0 <= i < 3
      ensures sep !in parts[i]
    {
    }
    SplitJoin(parts, sep);
  }

  // ---------------------------------------------------------------- split on whitespace

  /** Length of the leading run of non-whitespace characters. */
  function WordLength(s: string): (n: nat)
    ensures n <= |s|
    ensures forall i :: 0 <= i < n ==> !IsSpace(s[i])
    ensures n == |s| || IsSpace(s[n])
  {
    if s == [] || IsSpace(s[0]) then 0 else 1 + WordLength(s[1..])
  }

  /** Python's `str.split()` with no argument: the maximal whitespace-free runs. */
  function Tokens(s: string): (ts: seq<string>)
    ensures forall i :: 0 <= i < |ts| ==> IsWord(ts[i])
    decreases |s|
  {
    if s == [] then []
    else if IsSpace(s[0]) then Tokens(s[1..])
    else
      var n := WordLength(s);
      [s[..n]] + Tokens(s[n..])
  }

  lemma {:induction false} TokensOfWord(w: string)
    requires IsWord(w)
    ensures Tokens(w) == [w]
  {
    assert w + [] == w;
    WordLengthOfWord(w, []);
    assert w[..|w|] == w && w[|w|..] == [];
  }

  lemma {:induction false} WordLengthOfWord(w: string, rest: string)
    requires IsWord(w)
    requires rest == [] || IsSpace(rest[0])
    ensures WordLength(w + rest) == |w|
    decreases |w|
  {
    if |w| > 1 {
      assert (w + rest)[1..] == w[1..] + rest;
      WordLengthOfWord(w[1..], rest);
    } else {
      assert (w + rest)[1..] == rest;
    }
  }

  /** `str.split()` on a space-joined sequence of words gives back the words. */
  lemma {:induction false} TokensJoin(ws: seq<string>)
    requires |ws| >= 1
    requires forall i :: 0 <= i < |ws| ==> IsWord(ws[i])
    ensures Tokens(Join(ws, ' ')) == ws
  {
    if |ws| == 1 {
      TokensOfWord(ws[0]);
    } else {
      var w, rest := ws[0], Join(ws[1..], ' ');
      assert Join(ws, ' ') == w + ([' '] + rest);
      TokensJoin(ws[1..]);
      TokensWordSpace(w, rest);
      assert ws == [w] + ws[1..];
    }
  }

  /** A word, one space and a text: the word, then the tokens of the text. */
  lemma TokensWordSpace(w: string, rest: string)
    requires IsWord(w)
    ensures Tokens(w + ([' '] + rest)) == [w] + Tokens(rest)
  {
    TokensWordFirst(w, [' '] + rest);
    TokensAfterBlank([' '], rest);
  }

  /** Only whitespace: what may stand between, before and after the words. */
  predicate IsBlank(g: string) {
    forall i :: 0 <= i < |g| ==> IsSpace(g[i])
  }

  /** The text `gaps[0] + ws[0] + gaps[1] + ... + ws[n-1] + gaps[n]`. */
  function Layout(gaps: seq<string>, ws: seq<string>): string
    requires |gaps| == |ws| + 1
    decreases |ws|
  {
    if ws == [] then gaps[0] else gaps[0] + ws[0] + Layout(gaps[1..], ws[1..])
  }

  /**
   * Words separated by whitespace: every gap is blank, every gap between
   * two words holds at least one whitespace character, every word is a word.
   */
  predicate IsLayout(gaps: seq<string>, ws: seq<string>) {
    |gaps| == |ws| + 1
    && (forall i :: 0 <= i < |gaps| ==> IsBlank(gaps[i]))
    && (forall i :: 0 < i < |ws| ==> gaps[i] != [])
    && (forall i :: 0 <= i < |ws| ==> IsWord(ws[i]))
  }

  /** Leading whitespace does not change the tokens. */
  lemma {:induction false} TokensAfterBlank(g: string, t: string)
    requires IsBlank(g)
    ensures Tokens(g + t) == Tokens(t)
    decreases |g|
  {
    if g != [] {
      assert (g + t)[0] == g[0] && IsSpace(g[0]);
      assert (g + t)[1..] == g[1..] + t;
      assert IsBlank(g[1..]);
      assert Tokens(g + t) == Tokens((g + t)[1..]);
      TokensAfterBlank(g[1..], t);
    } else {
      assert g + t == t;
    }
  }

  /** A word followed by whitespace or by nothing is the first token. */
  lemma {:induction false} TokensWordFirst(w: string, rest: string)
    requires IsWord(w) && (rest == [] || IsSpace(rest[0]))
    ensures Tokens(w + rest) == [w] + Tokens(rest)
  {
    WordLengthOfWord(w, rest);
    assert (w + rest)[..|w|] == w;
    assert (w + rest)[|w|..] == rest;
  }

  /** Whitespace, a word, and then whitespace or nothing: the word is the first token. */
  lemma TokensGapWord(g: string, w: string, rest: string)
    requires IsBlank(g) && IsWord(w) && (rest == [] || IsSpace(rest[0]))
    ensures Tokens(g + w + rest) == [w] + Tokens(rest)
  {
    var t := w + rest;
    TokensWordFirst(w, rest);
    TokensAfterBlank(g, t);
    assert g + w + rest == g + t;
  }

  /** A layout of words with blank gaps starts with whitespace unless it starts with a word. */
  lemma LayoutStart(gaps: seq<string>, ws: seq<string>)
    requires IsLayout(gaps, ws) && gaps[0] != []
    ensures Layout(gaps, ws) != [] && IsSpace(Layout(gaps, ws)[0])
  {
  }

  /** Dropping the first gap and word of a layout leaves a layout that is empty or starts with whitespace. */
  lemma LayoutTail(gaps: seq<string>, ws: seq<string>)
    requires IsLayout(gaps, ws) && ws != []
    ensures IsLayout(gaps[1..], ws[1..])
    ensures var rest := Layout(gaps[1..], ws[1..]); rest == [] || IsSpace(rest[0])
  {
    assert IsLayout(gaps[1..], ws[1..]);
    if ws[1..] != [] {
      LayoutStart(gaps[1..], ws[1..]);
    }
  }

  /** `split()` of words laid out with whitespace between them gives back exactly those words. */
  lemma {:induction false} TokensOfLayout(gaps: seq<string>, ws: seq<string>)
    requires IsLayout(gaps, ws)
    ensures Tokens(Layout(gaps, ws)) == ws
    decreases |ws|
  {
    if ws == [] {
      TokensAfterBlank(gaps[0], []);
      assert gaps[0] + [] == gaps[0];
    } else {
      LayoutTail(gaps, ws);
      TokensGapWord(gaps[0], ws[0], Layout(gaps[1..], ws[1..]));
      TokensOfLayout(gaps[1..], ws[1..]);
      assert ws == [ws[0]] + ws[1..];
    }
  }

  /** Adding whitespace in front of a layout widens its first gap. */
  lemma LayoutWiden(g: string, gaps: seq<string>, ws: seq<string>)
    requires |gaps| == |ws| + 1
    ensures Layout([g + gaps[0]] + gaps[1..], ws) == g + Layout(gaps, ws)
  {
    var wider := [g + gaps[0]] + gaps[1..];
    assert wider[1..] == gaps[1..];
  }

  /** A character absent from the text is absent from every token of `split()`. */
  lemma {:induction false} TokensAvoid(s: string, c: char)
    requires c !in s
    ensures forall i :: 0 <= i < |Tokens(s)| ==> c !in Tokens(s)[i]
    decreases |s|
  {
    if s != [] {
      if IsSpace(s[0]) {
        assert c !in s[1..];
        TokensAvoid(s[1..], c);
      } else {
        var n := WordLength(s);
        assert c !in s[..n] && c !in s[n..];
        TokensAvoid(s[n..], c);
      }
    }
  }

  /** Whitespace in front of a layout joins its first gap. */
  lemma LayoutSpaceStep(c: char, gaps: seq<string>, ws: seq<string>)
    requires IsSpace(c) && IsLayout(gaps, ws)
    ensures var wider := [[c] + gaps[0]] + gaps[1..];
            IsLayout(wider, ws) && Layout(wider, ws) == [c] + Layout(gaps, ws)
  {
    var wider := [[c] + gaps[0]] + gaps[1..];
    LayoutWiden([c], gaps, ws);
    assert forall i :: 0 < i < |wider| ==> wider[i] == gaps[i];
    assert IsBlank(wider[0]);
  }

  /** A word in front of a layout that starts with whitespace or is empty becomes its first word. */
  lemma LayoutWordStep(w: string, gaps: seq<string>, ws: seq<string>)
    requires IsWord(w) && IsLayout(gaps, ws)
    requires Layout(gaps, ws) == [] || IsSpace(Layout(gaps, ws)[0])
    ensures IsLayout([[]] + gaps, [w] + ws) && Layout([[]] + gaps, [w] + ws) == w + Layout(gaps, ws)
  {
    var all := [[]] + gaps;
    assert all[1..] == gaps && ([w] + ws)[1..] == ws;
    assert forall i :: 1 <= i < |all| ==> all[i] == gaps[i - 1];
  }

  /** The whitespace runs around the tokens of `s`, found along the same recursion as `Tokens`. */
  function GapsOf(s: string): (gaps: seq<string>)
    ensures |gaps| == |Tokens(s)| + 1
    decreases |s|
  {
    if s == [] then [[]]
    else if IsSpace(s[0]) then
      var g := GapsOf(s[1..]);
      [[s[0]] + g[0]] + g[1..]
    else [[]] + GapsOf(s[WordLength(s)..])
  }

  /** A leading whitespace character joins the first gap and leaves the tokens alone. */
  lemma GapsOfSpace(s: string)
    requires s != [] && IsSpace(s[0])
    ensures GapsOf(s) == [[s[0]] + GapsOf(s[1..])[0]] + GapsOf(s[1..])[1..]
    ensures Tokens(s) == Tokens(s[1..])
  {
  }

  /** A leading word is the first token, after an empty first gap. */
  lemma GapsOfWord(s: string)
    requires s != [] && !IsSpace(s[0])
    ensures var n := WordLength(s);
            GapsOf(s) == [[]] + GapsOf(s[n..]) && Tokens(s) == [s[..n]] + Tokens(s[n..])
  {
  }

  /** The first `WordLength(s)` characters of a text that starts with a non-space form a word, ended by a space or the end. */
  lemma WordPrefix(s: string)
    requires s != [] && !IsSpace(s[0])
    ensures var n := WordLength(s);
            IsWord(s[..n]) && (s[n..] == [] || IsSpace(s[n..][0])) && s == s[..n] + s[n..]
  {
    var n := WordLength(s);
    var w := s[..n];
    assert |w| == n && forall i :: 0 <= i < n ==> w[i] == s[i];
    assert n == |s| || s[n..][0] == s[n];
  }

  /** The tokens of `s`, laid out with the gaps `GapsOf(s)`, give back `s`. */
  lemma {:induction false} TokensLayoutOf(s: string)
    ensures IsLayout(GapsOf(s), Tokens(s)) && Layout(GapsOf(s), Tokens(s)) == s
    decreases |s|
  {
    if s == [] {
    } else if IsSpace(s[0]) {
      TokensLayoutOf(s[1..]);
      GapsOfSpace(s);
      assert s == [s[0]] + s[1..];
      LayoutSpaceStep(s[0], GapsOf(s[1..]), Tokens(s[1..]));
    } else {
      var n := WordLength(s);
      TokensLayoutOf(s[n..]);
      GapsOfWord(s);
      WordPrefix(s);
      LayoutWordStep(s[..n], GapsOf(s[n..]), Tokens(s[n..]));
    }
  }

  /**
   * Every text is its `split()` tokens laid out with whitespace: the tokens
   * are the maximal whitespace-free runs of the text, in order.
   */
  lemma TokensLayout(s: string)
    ensures exists gaps :: IsLayout(gaps, Tokens(s)) && Layout(gaps, Tokens(s)) == s
  {
    TokensLayoutOf(s);
  }

  // ---------------------------------------------------------------- replace, substring

  /** `s.replace(from, to)` for one-character `from` and `to`. */
  function Replace(s: string, from: char, to: char): (r: string)
    ensures |r| == |s|
  {
    if s == [] then [] else [if s[0] == from then to else s[0]] + Replace(s[1..], from, to)
  }

  /** `replace` changes exactly the positions that hold the replaced character. */
  lemma {:induction false} ReplaceAt(s: string, from: char, to: char)
    ensures forall i :: 0 <= i < |s| ==> Replace(s, from, to)[i] == (if s[i] == from then to else s[i])
    decreases |s|
  {
    if s != [] {
      ReplaceAt(s[1..], from, to);
      assert forall i :: 1 <= i < |s| ==> s[i] == s[1..][i - 1];
    }
  }

  lemma ReplaceAbsent(s: string, from: char, to: char)
    requires from !in s
    ensures Replace(s, from, to) == s
  {
    var r := Replace(s, from, to);
    ReplaceAt(s, from, to);
    assert forall i :: 0 <= i < |s| ==> r[i] == s[i];
  }

  /** Replacing in a text whose first occurrence of `from` follows the free prefix `x`. */
  /** `replace` works character by character, so it distributes over concatenation. */
  lemma {:induction false} ReplaceConcat(a: string, b: string, from: char, to: char)
    ensures Replace(a + b, from, to) == Replace(a, from, to) + Replace(b, from, to)
    decreases |a|
  {
    if a == [] {
      assert a + b == b;
    } else {
      assert (a + b)[1..] == a[1..] + b;
      ReplaceConcat(a[1..], b, from, to);
    }
  }

  lemma ReplaceAfterFree(x: string, y: string, from: char, to: char)
    requires from !in x
    ensures Replace(x + [from] + y, from, to) == x + [to] + Replace(y, from, to)
  {
    ReplaceConcat(x, [from] + y, from, to);
    ReplaceConcat([from], y, from, to);
    ReplaceAbsent(x, from, to);
    assert x + [from] + y == x + ([from] + y);
  }

  /** Python's `t in s` on strings: `t` occurs as a contiguous substring of `s`. */
  predicate Contains(s: string, t: string)
    decreases |s|
  {
    |t| <= |s| && (s[..|t|] == t || Contains(s[1..], t))
  }

  /** Every character of an occurring substring occurs in the text. */
  lemma {:induction false} ContainsChars(s: string, t: string, j: nat)
    requires Contains(s, t) && j < |t|
    ensures t[j] in s
    decreases |s|
  {
    if s[..|t|] == t {
      assert s[j] == t[j];
    } else {
      ContainsChars(s[1..], t, j);
    }
  }

  /** A text lacking some character of `t` never contains `t`. */
  lemma NotContainsForeign(s: string, t: string, j: nat)
    requires j < |t| && t[j] !in s
    ensures !Contains(s, t)
  {
    if Contains(s, t) {
      ContainsChars(s, t, j);
    }
  }

  lemma {:induction false} ContainsPrefix(s: string, t: string)
    requires |t| <= |s| && s[..|t|] == t
    ensures Contains(s, t)
  {
  }

  // ---------------------------------------------------------------- digits and numbers

  predicate IsDigit(c: char) {
    '0' <= c <= '9'
  }

  /** Python's `str.isdigit()`, restricted to the ASCII digits. */
  predicate IsDigits(s: string) {
    |s| > 0 && forall i :: 0 <= i < |s| ==> IsDigit(s[i])
  }

  /** The value of a string of decimal digits, most significant first. */
  function DigitsValue(s: string): nat
    requires forall i :: 0 <= i < |s| ==> IsDigit(s[i])
  {
    if s == [] then 0
    else
      assert IsDigit(s[|s| - 1]);
      10 * DigitsValue(s[..|s| - 1]) + (s[|s| - 1] as int - '0' as int)
  }

  /** Python's `int(s)` on stripped text: an optional `+` then ASCII digits; anything else raises. */
  function ParseInt(s: string): (r: Option<int>)
    ensures r.Some? ==> r.value >= 0
    ensures IsDigits(s) ==> r == Some(DigitsValue(s))
  {
    if IsDigits(s) then Some(DigitsValue(s))
    else if |s| > 1 && s[0] == '+' && IsDigits(s[1..]) then Some(DigitsValue(s[1..]))
    else None
  }

  function DigitChar(d: nat): (c: char)
    requires d < 10
    ensures IsDigit(c) && c as int - '0' as int == d
  {
    '0' + d as char
  }

  /** Python's `str(n)` for a natural number. */
  function NatToString(n: nat): (s: string)
    ensures IsDigits(s)
  {
    if n < 10 then [DigitChar(n)] else NatToString(n / 10) + [DigitChar(n % 10)]
  }

  /** `int(str(n)) == n`. */
  lemma {:induction false} NatToStringValue(n: nat)
    ensures DigitsValue(NatToString(n)) == n
  {
    if n >= 10 {
      var s := NatToString(n);
      assert s[..|s| - 1] == NatToString(n / 10);
      NatToStringValue(n / 10);
    }
  }

  function Zeros(n: nat): (z: string)
    ensures |z| == n && forall i :: 0 <= i < n ==> z[i] == '0'
  {
    seq(n, _ => '0')
  }

  /** Left-pads with `'0'` to at least `width` characters, as `strftime`'s `%d`, `%m`, `%Y` do. */
  function ZeroPad(s: string, width: nat): (r: string)
    ensures |r| == if |s| >= width then |s| else width
  {
    if |s| >= width then s else Zeros(width - |s|) + s
  }

  /** A leading zero does not change the value of a digit string. */
  lemma {:induction false} LeadingZeroValue(s: string)
    requires forall i :: 0 <= i < |s| ==> IsDigit(s[i])
    ensures DigitsValue(['0'] + s) == DigitsValue(s)
    decreases |s|
  {
    if s != [] {
      var z := ['0'] + s;
      assert z[..|z| - 1] == ['0'] + s[..|s| - 1];
      LeadingZeroValue(s[..|s| - 1]);
    }
  }

  lemma {:induction false} LeadingZerosValue(k: nat, s: string)
    requires IsDigits(s)
    ensures IsDigits(Zeros(k) + s) && DigitsValue(Zeros(k) + s) == DigitsValue(s)
  {
    if k == 0 {
      assert Zeros(k) + s == s;
    } else {
      LeadingZerosValue(k - 1, s);
      var t := Zeros(k - 1) + s;
      assert Zeros(k) + s == ['0'] + t;
      LeadingZeroValue(t);
      assert IsDigits(['0'] + t) by {
        forall i | 0 <= i < |t| + 1 ensures IsDigit((['0'] + t)[i]) {
          if i > 0 { assert (['0'] + t)[i] == t[i - 1]; }
        }
      }
    }
  }

  lemma ZeroPadValue(s: string, width: nat)
    requires IsDigits(s)
    ensures IsDigits(ZeroPad(s, width)) && DigitsValue(ZeroPad(s, width)) == DigitsValue(s)
  {
    if |s| < width {
      LeadingZerosValue(width - |s|, s);
    }
  }

  /** `int(zero-padded str(n)) == n`. */
  lemma PaddedNumberValue(n: nat, width: nat)
    ensures IsDigits(ZeroPad(NatToString(n), width))
    ensures DigitsValue(ZeroPad(NatToString(n), width)) == n
  {
    ZeroPadValue(NatToString(n), width);
    NatToStringValue(n);
  }
}
