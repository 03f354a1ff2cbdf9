/** The Python `str` operations the sudo command module relies on, stated over
    `seq<char>`: `s.split()`, `s.split(sep)`, `sep.join(parts)`, slicing,
    `startswith`, `in`, `lower()`, `html.escape`, `sorted` and `str(n)`. */
module PyText {

  datatype Option<+T> = None | Some(value: T)

  // ---------------------------------------------------------------------------
  // Characters

  /** `c.isspace()`: the separators of `s.split()` with no argument. */
  predicate IsSpace(c: char)
  {
    || c == ' ' || c == '\t' || c == '\n' || c == '\r' || c == '\U{b}' || c == '\U{c}'
    || ('\U{1c}' <= c <= '\U{1f}')
    || c == '\U{85}' || c == '\U{a0}' || c == '\U{1680}'
    || ('\U{2000}' <= c <= '\U{200a}')
    || c == '\U{2028}' || c == '\U{2029}' || c == '\U{202f}' || c == '\U{205f}' || c == '\U{3000}'
  }

  /** `s.lower()` restricted to ASCII letters. For the substrings this module
      looks for ("pv", "privado") this is exact: the only non-ASCII character
      whose lower case contains one of their letters is U+0130, which lowers to
      'i' followed by U+0307. */
  function LowerChar(c: char): char
  {
    if 'A' <= c <= 'Z' then (c as int + 32) as char else c
  }

  function Lower(s: string): (r: string)
    ensures |r| == |s|
    ensures forall i :: 0 <= i < |s| ==> r[i] == LowerChar(s[i])
  {
    if s == [] then [] else [LowerChar(s[0])] + Lower(s[1..])
  }

  // ---------------------------------------------------------------------------
  // Prefixes, slices, membership

  /** `s.startswith(p)` */
  predicate StartsWith(s: string, p: string)
  {
    |p| <= |s| && s[..|p|] == p
  }

  /** `s[n:]`: empty once `n` is past the end. */
  function Drop(s: string, n: nat): string
  {
    if |s| <= n then [] else s[n..]
  }

  lemma StartsWithConcat(p: string, s: string)
    ensures StartsWith(p + s, p)
  {
    assert (p + s)[..|p|] == p;
  }

  lemma InConcat(c: char, p: string, s: string)
    requires c in s
    ensures c in p + s
  {
    var i :| 0 <= i < |s| && s[i] == c;
    assert (p + s)[|p| + i] == c;
  }

  /** `sub in s`, as a scan from the left. */
  predicate Contains(s: string, sub: string)
    decreases |s|
  {
    StartsWith(s, sub) || (s != [] && Contains(s[1..], sub))
  }

  /** `sub` occurs in `s` at position `i`. */
  predicate OccursAt(s: string, sub: string, i: int)
  {
    0 <= i <= |s| - |sub| && s[i..i + |sub|] == sub
  }

  /** `sub in s` holds exactly when `sub` occurs at some position of `s`. */
  lemma {:induction false} ContainsAt(s: string, sub: string)
    ensures Contains(s, sub) <==> exists i :: OccursAt(s, sub, i)
    decreases |s|
  {
    if s != [] {
      ContainsAt(s[1..], sub);
      if Contains(s[1..], sub) {
        var i :| OccursAt(s[1..], sub, i);
        assert s[i + 1..i + 1 + |sub|] == s[1..][i..i + |sub|];
        assert OccursAt(s, sub, i + 1);
      }
      if i :| OccursAt(s, sub, i) {
        if i > 0 {
          assert s[1..][i - 1..i - 1 + |sub|] == s[i..i + |sub|];
          assert OccursAt(s[1..], sub, i - 1);
        } else {
          assert StartsWith(s, sub);
        }
      }
    } else {
      if i :| OccursAt(s, sub, i) {
        assert StartsWith(s, sub);
      }
    }
    if StartsWith(s, sub) {
      assert OccursAt(s, sub, 0);
    }
  }

  // ---------------------------------------------------------------------------
  // s.split() with no argument

  /** `s` without its leading separators. */
  function TrimStart(s: string): (r: string)
    ensures |r| <= |s| && r == s[|s| - |r|..]
    ensures r == [] || !IsSpace(r[0])
    ensures forall i :: 0 <= i < |s| - |r| ==> IsSpace(s[i])
  {
    if s != [] && IsSpace(s[0]) then TrimStart(s[1..]) else s
  }

  /** The longest prefix of `s` holding no separator. */
  function Token(s: string): (r: string)
    ensures |r| <= |s| && r == s[..|r|]
    ensures forall i :: 0 <= i < |r| ==> !IsSpace(r[i])
    ensures |r| < |s| ==> IsSpace(s[|r|])
  {
    if s == [] || IsSpace(s[0]) then [] else [s[0]] + Token(s[1..])
  }

  predicate Blank(s: string)
  {
    forall i :: 0 <= i < |s| ==> IsSpace(s[i])
  }

  predicate IsWord(w: string)
  {
    w != [] && forall i :: 0 <= i < |w| ==> !IsSpace(w[i])
  }

  /** `s.split()`: the maximal runs of non-separators, in order; every one is a
      non-empty word. */
  function Words(s: string): (ws: seq<string>)
    ensures forall k :: 0 <= k < |ws| ==> IsWord(ws[k])
    decreases |s|
  {
    var t := TrimStart(s);
    if t == [] then []
    else
      var w := Token(t);
      [w] + Words(t[|w|..])
  }

  /** `s.split()` is empty exactly when `s` holds only separators, which is when
      `s.split()[0]` raises IndexError. */
  lemma WordsEmptyIffBlank(s: string)
    ensures Words(s) == [] <==> Blank(s)
  {
    var t := TrimStart(s);
    if t != [] {
      assert !IsSpace(s[|s| - |t|]);
    } else {
      assert forall i :: 0 <= i < |s| ==> IsSpace(s[i]);
    }
  }

  /** When `s` begins with a word `p`, the first word of `s` begins with `p`:
      this is what keeps `s.split()[0] == cmd` and `s.startswith(...)` tests apart. */
  lemma {:induction false} FirstWordExtends(s: string, p: string)
    requires IsWord(p) && StartsWith(s, p)
    ensures Words(s) != [] && StartsWith(Words(s)[0], p)
  {
    assert TrimStart(s) == s;
    TokenExtends(s, p);
  }

  lemma {:induction false} TokenExtends(s: string, p: string)
    requires forall i :: 0 <= i < |p| ==> !IsSpace(p[i])
    requires StartsWith(s, p)
    ensures StartsWith(Token(s), p)
    decreases |p|
  {
    if p != [] {
      assert s[0] == p[0];
      TokenExtends(s[1..], p[1..]);
    }
  }

  /** A word followed only by separators splits to that word alone. */
  lemma {:induction false} WordThenBlank(w: string, b: string)
    requires IsWord(w) && Blank(b)
    ensures Words(w + b) == [w]
  {
    var s := w + b;
    assert TrimStart(s) == s by {
      assert s[0] == w[0];
    }
    TokenUpTo(w, b);
    assert s[|w|..] == b;
    assert Words(b) == [] by {
      WordsEmptyIffBlank(b);
    }
    assert Words(s) == [w] + Words(b);
  }

  /** `split()` on separators, a word and a rest that starts at a separator
      (or is empty) gives that word and then the split of the rest: with
      `WordsEmptyIffBlank`, this fixes `split()` on every text. */
  lemma {:induction false} WordsCons(b: string, w: string, rest: string)
    requires Blank(b) && IsWord(w) && (rest == [] || IsSpace(rest[0]))
    ensures Words(b + w + rest) == [w] + Words(rest)
    decreases |b|
  {
    if b == [] {
      assert b + w + rest == w + rest;
      WordsAtWord(w, rest);
    } else {
      assert (b + w + rest)[1..] == b[1..] + w + rest;
      WordsSkipSpace(b + w + rest);
      WordsCons(b[1..], w, rest);
    }
  }

  /** A leading separator does not change `split()`. */
  lemma WordsSkipSpace(s: string)
    requires s != [] && IsSpace(s[0])
    ensures Words(s) == Words(s[1..])
  {
    assert TrimStart(s) == TrimStart(s[1..]);
  }

  /** A text that starts with a word, followed by a separator or by nothing,
      splits to that word and then the split of what follows. */
  lemma WordsAtWord(w: string, rest: string)
    requires IsWord(w) && (rest == [] || IsSpace(rest[0]))
    ensures Words(w + rest) == [w] + Words(rest)
  {
    var s := w + rest;
    assert TrimStart(s) == s by {
      assert s[0] == w[0];
    }
    TokenUpTo(w, rest);
    assert s[|w|..] == rest;
  }

  lemma {:induction false} TokenUpTo(w: string, b: string)
    requires forall i :: 0 <= i < |w| ==> !IsSpace(w[i])
    requires b == [] || IsSpace(b[0])
    ensures Token(w + b) == w
  {
    if w != [] {
      assert (w + b)[1..] == w[1..] + b;
      TokenUpTo(w[1..], b);
    } else {
      assert w + b == b;
    }
  }

  // ---------------------------------------------------------------------------
  // s.split(sep) with a one-character separator, and sep.join(parts)

  /** `s.split(sep)`: every piece between separators, empty pieces kept, so
      there is always at least one. */
  function Split(s: string, sep: char): (ps: seq<string>)
    ensures |ps| >= 1
    ensures forall k :: 0 <= k < |ps| ==> sep !in ps[k]
  {
    if s == [] then [[]]
    else
      var rest := Split(s[1..], sep);
      if s[0] == sep then [[]] + rest else [[s[0]] + rest[0]] + rest[1..]
  }

  /** `sep.join(parts)` */
  function Join(sep: string, parts: seq<string>): string
  {
    if parts == [] then []
    else if |parts| == 1 then parts[0]
    else parts[0] + sep + Join(sep, parts[1..])
  }

  /** Joining the pieces of `s.split(sep)` with `sep` gives back `s`. */
  lemma {:induction false} JoinSplit(s: string, sep: char)
    ensures Join([sep], Split(s, sep)) == s
  {
    if s != [] {
      var rest := Split(s[1..], sep);
      JoinSplit(s[1..], sep);
      if s[0] == sep {
        assert Join([sep], [[]] + rest) == [] + [sep] + Join([sep], rest);
      } else {
        JoinHead([s[0]], rest, [sep]);
      }
      assert s == [s[0]] + s[1..];
    }
  }

  /** Extending the first part of a join extends the joined text at its front. */
  lemma JoinHead(x: string, parts: seq<string>, sep: string)
    requires parts != []
    ensures Join(sep, [x + parts[0]] + parts[1..]) == x + Join(sep, parts)
  {
    var ps := [x + parts[0]] + parts[1..];
    if |parts| > 1 {
      assert ps[1..] == parts[1..];
    }
  }

  /** `s.split(sep, 1)[-1]`: what follows the first `sep`, or all of `s`. */
  function AfterFirst(s: string, sep: char): (r: string)
    ensures sep !in s ==> r == s
    ensures sep in s ==> exists i :: 0 <= i < |s| && s[i] == sep && sep !in s[..i] && r == s[i + 1..]
  {
    if s == [] then []
    else if s[0] == sep then s[1..]
    else if sep in s[1..] then
      var r := AfterFirst(s[1..], sep);
      var i :| 0 <= i < |s[1..]| && s[1..][i] == sep && sep !in s[1..][..i] && r == s[1..][i + 1..];
      assert s[..i + 1] == [s[0]] + s[1..][..i];
      r
    else s
  }

  // ---------------------------------------------------------------------------
  // html.escape(s) (quote=True) and its inverse

  function EscapeChar(c: char): string
  {
    match c
    case '&' => "&amp;"
    case '<' => "&lt;"
    case '>' => "&gt;"
    case '"' => "&quot;"
    case '\'' => "&#x27;"
    case _ => [c]
  }

  /** `html.escape(s)`: the result holds no markup character, so it cannot
      open or close an HTML tag or attribute. */
  function Escape(s: string): (r: string)
    ensures forall i :: 0 <= i < |r| ==> r[i] !in {'<', '>', '"', '\''}
  {
    if s == [] then [] else EscapeChar(s[0]) + Escape(s[1..])
  }

  /** Reads back the five entities `Escape` writes. */
  function Unescape(s: string): string
    decreases |s|
  {
    if s == [] then []
    else if StartsWith(s, "&amp;") then "&" + Unescape(s[5..])
    else if StartsWith(s, "&lt;") then "<" + Unescape(s[4..])
    else if StartsWith(s, "&gt;") then ">" + Unescape(s[4..])
    else if StartsWith(s, "&quot;") then "\"" + Unescape(s[6..])
    else if StartsWith(s, "&#x27;") then "'" + Unescape(s[6..])
    else [s[0]] + Unescape(s[1..])
  }

  /** Escaping loses nothing: the original text is recovered from the escaped one. */
  lemma {:induction false} UnescapeEscape(s: string)
    ensures Unescape(Escape(s)) == s
  {
    if s != [] {
      var c, t := s[0], Escape(s[1..]);
      UnescapeEscape(s[1..]);
      UnescapeEntity(c, t);
      assert s == [c] + s[1..];
    }
  }

  /** Reading back one escaped character followed by more text. */
  lemma UnescapeEntity(c: char, t: string)
    ensures Unescape(EscapeChar(c) + t) == [c] + Unescape(t)
  {
    var e := EscapeChar(c);
    var u := e + t;
    assert u[|e|..] == t;
    assert u[..|e|] == e;
    if |e| > 1 {
      assert u[0] == e[0] && u[1] == e[1] && u[2] == e[2];
    }
    if c == '&' {
      assert StartsWith(u, "&amp;");
    } else if c == '<' {
      assert !StartsWith(u, "&amp;") && StartsWith(u, "&lt;");
    } else if c == '>' {
      assert !StartsWith(u, "&amp;") && !StartsWith(u, "&lt;") && StartsWith(u, "&gt;");
    } else if c == '"' {
      assert !StartsWith(u, "&amp;") && !StartsWith(u, "&lt;") && !StartsWith(u, "&gt;");
      assert StartsWith(u, "&quot;");
    } else if c == '\'' {
      assert !StartsWith(u, "&amp;") && !StartsWith(u, "&lt;") && !StartsWith(u, "&gt;");
      assert !StartsWith(u, "&quot;") && StartsWith(u, "&#x27;");
    } else {
      assert e == [c] && u[0] == c && u[1..] == t;
      assert !StartsWith(u, "&amp;") && !StartsWith(u, "&lt;") && !StartsWith(u, "&gt;");
      assert !StartsWith(u, "&quot;") && !StartsWith(u, "&#x27;");
    }
  }

  // ---------------------------------------------------------------------------
  // sorted(xs) over strings, and str(n)

  /** `a <= b` on Python strings: code-point lexicographic order. */
  predicate NotAfter(a: string, b: string)
  {
    a == [] || (b != [] && (a[0] < b[0] || (a[0] == b[0] && NotAfter(a[1..], b[1..]))))
  }

  lemma {:induction false} NotAfterTotal(a: string, b: string)
    ensures NotAfter(a, b) || NotAfter(b, a)
  {
    if a != [] && b != [] && a[0] == b[0] {
      NotAfterTotal(a[1..], b[1..]);
    }
  }

  predicate Ordered(xs: seq<string>)
  {
    forall i :: 0 < i < |xs| ==> NotAfter(xs[i - 1], xs[i])
  }

  function Insert(x: string, xs: seq<string>): (r: seq<string>)
    requires Ordered(xs)
    ensures Ordered(r) && multiset(r) == multiset(xs) + multiset{x}
    ensures r[0] == x || (xs != [] && r[0] == xs[0])
  {
    if xs == [] then [x]
    else if NotAfter(x, xs[0]) then [x] + xs
    else
      NotAfterTotal(x, xs[0]);
      var rest := Insert(x, xs[1..]);
      assert xs == [xs[0]] + xs[1..];
      [xs[0]] + rest
  }

  /** `sorted(xs)`: an ordered permutation of `xs`. */
  function Sort(xs: seq<string>): (r: seq<string>)
    ensures Ordered(r) && multiset(r) == multiset(xs)
  {
    if xs == [] then []
    else
      assert xs == [xs[0]] + xs[1..];
      Insert(xs[0], Sort(xs[1..]))
  }

  function Digit(d: nat): char
    requires d < 10
  {
    ('0' as int + d) as char
  }

  /** `str(n)` for a non-negative `n`: decimal digits, no leading zero. */
  function Decimal(n: nat): (r: string)
    ensures r != [] && forall i :: 0 <= i < |r| ==> '0' <= r[i] <= '9'
    ensures r[0] == '0' ==> n == 0
  {
    if n < 10 then [Digit(n)] else Decimal(n / 10) + [Digit(n % 10)]
  }

  /** `int(s)` over a string of decimal digits. */
  function ParseDecimal(s: string): nat
    requires forall i :: 0 <= i < |s| ==> '0' <= s[i] <= '9'
  {
    if s == [] then 0
    else ParseDecimal(s[..|s| - 1]) * 10 + (s[|s| - 1] as int - '0' as int)
  }

  /** `int(str(n)) == n` */
  lemma {:induction false} DecimalRoundTrip(n: nat)
    ensures ParseDecimal(Decimal(n)) == n
  {
    if n >= 10 {
      var r := Decimal(n);
      DecimalRoundTrip(n / 10);
      assert r[..|r| - 1] == Decimal(n / 10);
    }
  }
}
