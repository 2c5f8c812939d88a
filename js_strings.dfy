/**
 * The JavaScript string operations the timestamp parser and the dashboards use:
 * `split` on a one-character separator, `split(/[, ]+/)`, `join`, `slice`,
 * `toLowerCase` and `Number` on a field.
 */
module JsStrings {
  import opened Wrappers

  /** `s.split(c)` for a one-character string separator: the pieces between occurrences of c. */
  function SplitOn(s: string, c: char): (r: seq<string>)
    ensures |r| >= 1
    ensures forall i :: 0 <= i < |r| ==> c !in r[i]
    decreases |s|
  {
    if s == [] then [[]]
    else
      var rest := SplitOn(s[1..], c);
      if s[0] == c then [[]] + rest
      else [[s[0]] + rest[0]] + rest[1..]
  }

  /** `parts.join(sep)`. */
  function Join(parts: seq<string>, sep: string): string
    decreases |parts|
  {
    if parts == [] then []
    else if |parts| == 1 then parts[0]
    else parts[0] + sep + Join(parts[1..], sep)
  }

  /** Every occurrence of character c replaced by d. */
  function ReplaceChar(s: string, c: char, d: char): (r: string)
    ensures |r| == |s|
    ensures forall i :: 0 <= i < |s| ==> r[i] == if s[i] == c then d else s[i]
  {
    seq(|s|, i requires 0 <= i < |s| => if s[i] == c then d else s[i])
  }

  /** `s.slice(0, n)` for n >= 0: slicing past the end is clamped. */
  function SlicePrefix(s: string, n: nat): (r: string)
    ensures |r| == if |s| < n then |s| else n
    ensures r <= s
  {
    if |s| < n then s else s[..n]
  }

  /** Joining the pieces of a split with the same separator gives the string back. */
  lemma {:induction false} JoinSplitOn(s: string, c: char)
    ensures Join(SplitOn(s, c), [c]) == s
    decreases |s|
  {
    if s != [] {
      var rest := SplitOn(s[1..], c);
      JoinSplitOn(s[1..], c);
      if s[0] != c {
        assert SplitOn(s, c) == [[s[0]] + rest[0]] + rest[1..];
        if |rest| == 1 {
          assert Join(rest, [c]) == rest[0];
        } else {
          assert Join(rest, [c]) == rest[0] + [c] + Join(rest[1..], [c]);
        }
      }
    }
  }

  /** `s.split(c).join(d)` replaces every c by d (the dashboard's newline removal). */
  lemma {:induction false} JoinSplitOnReplaces(s: string, c: char, d: char)
    ensures Join(SplitOn(s, c), [d]) == ReplaceChar(s, c, d)
    decreases |s|
  {
    if s != [] {
      var rest := SplitOn(s[1..], c);
      JoinSplitOnReplaces(s[1..], c, d);
      ReplaceCharCons(s, c, d);
      if s[0] == c {
        JoinPrepend([], rest, [d]);
      } else {
        JoinExtendFirst(s[0], rest, [d]);
      }
    }
  }

  /** Joining with one more part in front puts that part and a separator in front. */
  lemma JoinPrepend(x: string, parts: seq<string>, sep: string)
    requires |parts| >= 1
    ensures Join([x] + parts, sep) == x + sep + Join(parts, sep)
  {
    assert ([x] + parts)[1..] == parts;
  }

  /** Extending the first part by a character extends the joined string by it. */
  lemma JoinExtendFirst(ch: char, parts: seq<string>, sep: string)
    requires |parts| >= 1
    ensures Join([[ch] + parts[0]] + parts[1..], sep) == [ch] + Join(parts, sep)
  {
    var ext := [[ch] + parts[0]] + parts[1..];
    if |parts| > 1 {
      assert ext[1..] == parts[1..];
    }
  }

  /** Replacing in a non-empty string replaces its first character and then the rest. */
  lemma ReplaceCharCons(s: string, c: char, d: char)
    requires s != []
    ensures ReplaceChar(s, c, d) == [if s[0] == c then d else s[0]] + ReplaceChar(s[1..], c, d)
  {
  }

  /** A string without the separator splits into itself alone. */
  lemma {:induction false} SplitOnWithout(s: string, c: char)
    requires c !in s
    ensures SplitOn(s, c) == [s]
    decreases |s|
  {
    if s != [] {
      assert s[0] != c && c !in s[1..];
      SplitOnWithout(s[1..], c);
      assert [s[0]] + s[1..] == s;
    }
  }

  /** Splitting at an occurrence of the separator splits the two sides independently. */
  lemma {:induction false} SplitOnAppend(a: string, c: char, b: string)
    ensures SplitOn(a + [c] + b, c) == SplitOn(a, c) + SplitOn(b, c)
    decreases |a|
  {
    if a == [] {
      assert [c] + b == a + [c] + b;
      assert ([c] + b)[1..] == b;
    } else {
      assert (a + [c] + b)[1..] == a[1..] + [c] + b;
      SplitOnAppend(a[1..], c, b);
    }
  }

  // ---------------------------------------------------------------------------
  // `split(/[, ]+/)`: splitting on maximal runs of commas and spaces
  // ---------------------------------------------------------------------------

  predicate IsDelimiter(ch: char) { ch == ',' || ch == ' ' }

  predicate NoDelimiter(s: string) {
    forall i :: 0 <= i < |s| ==> !IsDelimiter(s[i])
  }

  /** The string after its leading run of delimiters. */
  function SkipDelimiters(s: string): (r: string)
    ensures |r| <= |s|
    ensures s != [] && IsDelimiter(s[0]) ==> |r| < |s|
  {
    if s != [] && IsDelimiter(s[0]) then SkipDelimiters(s[1..]) else s
  }

  /**
   * `s.split(/[, ]+/)`: each maximal run of commas and spaces separates two tokens, so a
   * leading run gives an empty first token and a trailing run an empty last token.
   */
  function Tokens(s: string): (r: seq<string>)
    ensures |r| >= 1
    decreases |s|
  {
    if s == [] then [[]]
    else if IsDelimiter(s[0]) then [[]] + Tokens(SkipDelimiters(s))
    else
      var rest := Tokens(s[1..]);
      [[s[0]] + rest[0]] + rest[1..]
  }

  /** A run of delimiters in front of a non-delimiter is skipped entirely. */
  lemma {:induction false} SkipDelimitersRun(run: string, s: string)
    requires forall i :: 0 <= i < |run| ==> IsDelimiter(run[i])
    requires s == [] || !IsDelimiter(s[0])
    ensures SkipDelimiters(run + s) == s
    decreases |run|
  {
    if run == [] {
      assert run + s == s;
    } else {
      assert (run + s)[1..] == run[1..] + s;
      SkipDelimitersRun(run[1..], s);
    }
  }

  /** A word without delimiters becomes the front of the first token. */
  lemma {:induction false} TokensPrefix(w: string, s: string)
    requires NoDelimiter(w)
    requires s != [] && IsDelimiter(s[0])
    ensures Tokens(w + s) == [w] + Tokens(SkipDelimiters(s))
    decreases |w|
  {
    if w == [] {
      assert w + s == s;
    } else {
      var ws := w + s;
      assert ws[0] == w[0] && !IsDelimiter(ws[0]);
      assert ws[1..] == w[1..] + s;
      TokensPrefix(w[1..], s);
      var rest := Tokens(ws[1..]);
      assert rest == [w[1..]] + Tokens(SkipDelimiters(s));
      assert Tokens(ws) == [[w[0]] + rest[0]] + rest[1..];
      assert [w[0]] + w[1..] == w;
    }
  }

  /** A word without delimiters is a single token. */
  lemma {:induction false} TokensOfWord(w: string)
    requires NoDelimiter(w)
    ensures Tokens(w) == [w]
    decreases |w|
  {
    if w != [] {
      assert !IsDelimiter(w[0]) && NoDelimiter(w[1..]);
      TokensOfWord(w[1..]);
      assert [w[0]] + w[1..] == w;
    }
  }

  // ---------------------------------------------------------------------------
  // `Number(field)` on decimal digit strings
  // ---------------------------------------------------------------------------

  predicate IsDigit(ch: char) { '0' <= ch <= '9' }

  predicate AllDigits(s: string) {
    forall i :: 0 <= i < |s| ==> IsDigit(s[i])
  }

  /** The value of a string of decimal digits, most significant first. */
  function DigitsValue(s: string): nat
    requires AllDigits(s)
  {
    if s == [] then 0
    else 10 * DigitsValue(s[..|s| - 1]) + (s[|s| - 1] as int - '0' as int)
  }

  /**
   * `Number(s)` for the fields of a timestamp: a string of decimal digits is its value and
   * the empty string is 0; anything else is NaN (None).
   */
  function ToNumber(s: string): (r: Option<nat>)
    ensures r.Some? <==> AllDigits(s)
    ensures s == [] ==> r == Some(0)
  {
    if AllDigits(s) then Some(DigitsValue(s)) else None
  }

  /** The field at index i of a split, read by `Number`; a missing field is `undefined`, NaN. */
  function FieldNumber(fields: seq<string>, i: nat): (r: Option<nat>)
    ensures i >= |fields| ==> r == None
    ensures i < |fields| ==> r == ToNumber(fields[i])
  {
    if i < |fields| then ToNumber(fields[i]) else None
  }

  function Pow10(n: nat): (r: nat)
    ensures r >= 1
  {
    if n == 0 then 1 else 10 * Pow10(n - 1)
  }

  function DigitChar(d: nat): char
    requires d < 10
  {
    ('0' as int + d) as char
  }

  /** n written with exactly `width` decimal digits, zero-padded on the left. */
  function PadDigits(n: nat, width: nat): (r: string)
    ensures |r| == width && AllDigits(r)
  {
    if width == 0 then [] else PadDigits(n / 10, width - 1) + [DigitChar(n % 10)]
  }

  /** Two-digit padding spelled out digit by digit. */
  lemma Pad2(n: nat)
    requires n < 100
    ensures PadDigits(n, 2) == [DigitChar(n / 10), DigitChar(n % 10)]
  {
    var a := n / 10;
    assert a < 10 && a % 10 == a;
    assert PadDigits(a, 1) == [DigitChar(a)] by {
      assert PadDigits(a, 1) == PadDigits(a / 10, 0) + [DigitChar(a % 10)];
    }
    assert PadDigits(n, 2) == PadDigits(a, 1) + [DigitChar(n % 10)];
  }

  /** Four-digit padding spelled out digit by digit. */
  lemma Pad4(n: nat)
    requires n < 10000
    ensures PadDigits(n, 4) == [DigitChar(n / 1000), DigitChar(n / 100 % 10), DigitChar(n / 10 % 10), DigitChar(n % 10)]
  {
    var t, h := n / 10, n / 100;
    assert t / 10 == h && h / 10 == n / 1000 && h < 100;
    Pad2(h);
    assert PadDigits(t, 3) == PadDigits(h, 2) + [DigitChar(t % 10)];
    assert PadDigits(n, 4) == PadDigits(t, 3) + [DigitChar(n % 10)];
  }

  /** Reading back a zero-padded number gives the number when it fits in the width. */
  lemma {:induction false} PadDigitsValue(n: nat, width: nat)
    requires n < Pow10(width)
    ensures DigitsValue(PadDigits(n, width)) == n
  {
    if width > 0 {
      var p := PadDigits(n / 10, width - 1);
      assert n / 10 < Pow10(width - 1);
      PadDigitsValue(n / 10, width - 1);
      assert PadDigits(n, width)[..width - 1] == p;
    }
  }

  // ---------------------------------------------------------------------------
  // `toLowerCase` on ASCII letters
  // ---------------------------------------------------------------------------

  function LowerChar(ch: char): char {
    if 'A' <= ch <= 'Z' then (ch as int - 'A' as int + 'a' as int) as char else ch
  }

  /** `s.toLowerCase()` for ASCII text. */
  function ToLower(s: string): (r: string)
    ensures |r| == |s|
    ensures forall i :: 0 <= i < |s| ==> r[i] == LowerChar(s[i])
  {
    seq(|s|, i requires 0 <= i < |s| => LowerChar(s[i]))
  }

  /** A two-letter string lower-cases to [x, y] exactly when its letters do. */
  lemma LowerPair(s: string, x: char, y: char)
    ensures ToLower(s) == [x, y] <==> |s| == 2 && LowerChar(s[0]) == x && LowerChar(s[1]) == y
  {
    if |s| == 2 && LowerChar(s[0]) == x && LowerChar(s[1]) == y {
      assert ToLower(s)[0] == x && ToLower(s)[1] == y;
    }
  }

  /** The strings that lower-case to "pm" are exactly the four spellings of it. */
  lemma LowerIsPm(s: string)
    ensures ToLower(s) == "pm" <==> s in {"pm", "pM", "Pm", "PM"}
  {
    LowerPair(s, 'p', 'm');
    if |s| == 2 {
      assert s == [s[0], s[1]];
    }
  }

  /** The strings that lower-case to "am" are exactly the four spellings of it. */
  lemma LowerIsAm(s: string)
    ensures ToLower(s) == "am" <==> s in {"am", "aM", "Am", "AM"}
  {
    LowerPair(s, 'a', 'm');
    if |s| == 2 {
      assert s == [s[0], s[1]];
    }
  }
}
