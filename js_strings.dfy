/**
 * String operations of the JavaScript runtime that the tool relies on:
 * `String.prototype.split` with a one-character separator, the default
 * ordering of `Array.prototype.sort` (UTF-16 code units) and the decimal
 * rendering of an integer by string concatenation.
 */
module JsStrings {

  /** Glues pieces back together with the separator between neighbours. */
  function Join(pieces: seq<string>, sep: char): string
    requires |pieces| >= 1
    decreases |pieces|
  {
    if |pieces| == 1 then pieces[0] else pieces[0] + [sep] + Join(pieces[1..], sep)
  }

  /** Number of occurrences of `c` in `s`. */
  function Count(s: string, c: char): nat
  {
    if s == [] then 0 else (if s[0] == c then 1 else 0) + Count(s[1..], c)
  }

  /**
   * `s.split(sep)` for a one-character separator: every occurrence cuts,
   * empty pieces are kept, and the empty string gives one empty piece.
   */
  function Split(s: string, sep: char): (pieces: seq<string>)
    ensures |pieces| >= 1
    ensures Join(pieces, sep) == s
    decreases |s|
  {
    if s == [] then [""]
    else if s[0] == sep then
      var rest := Split(s[1..], sep);
      assert s == [sep] + s[1..];
      [""] + rest
    else
      var rest := Split(s[1..], sep);
      var pieces := [[s[0]] + rest[0]] + rest[1..];
      assert pieces[1..] == rest[1..];
      assert s == [s[0]] + s[1..];
      pieces
  }

  /** No piece contains the separator. */
  lemma {:induction false} SplitPiecesAvoidSeparator(s: string, sep: char)
    ensures forall i :: 0 <= i < |Split(s, sep)| ==> sep !in Split(s, sep)[i]
    decreases |s|
  {
    if s != [] {
      SplitPiecesAvoidSeparator(s[1..], sep);
      var rest := Split(s[1..], sep);
      if s[0] != sep {
        assert Split(s, sep)[1..] == rest[1..];
        assert Split(s, sep)[0] == [s[0]] + rest[0];
      }
    }
  }

  /** Joining two non-empty lists puts one separator between their joins. */
  lemma {:induction false} JoinAppend(a: seq<string>, b: seq<string>, sep: char)
    requires |a| >= 1 && |b| >= 1
    ensures Join(a + b, sep) == Join(a, sep) + [sep] + Join(b, sep)
    decreases |a|
  {
    if |a| > 1 {
      JoinAppend(a[1..], b, sep);
      assert (a + b)[1..] == a[1..] + b;
    } else {
      assert (a + b)[1..] == b;
    }
  }

  /** There is one piece more than there are separators. */
  lemma {:induction false} SplitLength(s: string, sep: char)
    ensures |Split(s, sep)| == Count(s, sep) + 1
    decreases |s|
  {
    if s != [] {
      SplitLength(s[1..], sep);
    }
  }

  /** A string without the separator is a single piece. */
  lemma {:induction false} SplitWithoutSeparator(s: string, sep: char)
    requires sep !in s
    ensures Split(s, sep) == [s]
    decreases |s|
  {
    if s != [] {
      assert sep !in s[1..] by {
        forall i | 0 <= i < |s[1..]| ensures s[1..][i] != sep { assert s[1..][i] == s[i + 1]; }
      }
      SplitWithoutSeparator(s[1..], sep);
      assert [s[0]] + s[1..] == s;
    }
  }

  /** A separator-free prefix followed by the separator is split off as the first piece. */
  lemma {:induction false} SplitAfterPiece(p: string, sep: char, t: string)
    requires sep !in p
    ensures Split(p + [sep] + t, sep) == [p] + Split(t, sep)
    decreases |p|
  {
    var s := p + [sep] + t;
    if p == [] {
      assert s == [sep] + t;
      assert s[1..] == t;
    } else {
      assert s[0] == p[0];
      assert s[1..] == p[1..] + [sep] + t;
      assert sep !in p[1..] by {
        forall i | 0 <= i < |p[1..]| ensures p[1..][i] != sep { assert p[1..][i] == p[i + 1]; }
      }
      SplitAfterPiece(p[1..], sep, t);
      assert [p[0]] + p[1..] == p;
    }
  }

  /**
   * Split is the only way to cut a string into separator-free pieces that
   * join back to it: it is characterised by its contract.
   */
  lemma {:induction false} SplitUnique(pieces: seq<string>, sep: char)
    requires |pieces| >= 1
    requires forall i :: 0 <= i < |pieces| ==> sep !in pieces[i]
    ensures Split(Join(pieces, sep), sep) == pieces
    decreases |pieces|
  {
    if |pieces| == 1 {
      SplitWithoutSeparator(pieces[0], sep);
    } else {
      var rest := pieces[1..];
      assert forall i :: 0 <= i < |rest| ==> sep !in rest[i] by {
        forall i | 0 <= i < |rest| ensures sep !in rest[i] { assert rest[i] == pieces[i + 1]; }
      }
      SplitUnique(rest, sep);
      SplitAfterPiece(pieces[0], sep, Join(rest, sep));
      assert [pieces[0]] + rest == pieces;
    }
  }

  /** Splitting after several separator-free pieces yields those pieces first. */
  lemma {:induction false} SplitAfterPieces(pre: seq<string>, sep: char, t: string)
    requires |pre| >= 1
    requires forall i :: 0 <= i < |pre| ==> sep !in pre[i]
    ensures Split(Join(pre, sep) + [sep] + t, sep) == pre + Split(t, sep)
    decreases |pre|
  {
    if |pre| == 1 {
      SplitAfterPiece(pre[0], sep, t);
    } else {
      var rest := pre[1..];
      assert forall i :: 0 <= i < |rest| ==> sep !in rest[i] by {
        forall i | 0 <= i < |rest| ensures sep !in rest[i] { assert rest[i] == pre[i + 1]; }
      }
      var u := Join(rest, sep) + [sep] + t;
      assert Join(pre, sep) + [sep] + t == pre[0] + [sep] + u by {
        assert Join(pre, sep) == pre[0] + [sep] + Join(rest, sep);
      }
      calc {
        Split(Join(pre, sep) + [sep] + t, sep);
        Split(pre[0] + [sep] + u, sep);
        { SplitAfterPiece(pre[0], sep, u); }
        [pre[0]] + Split(u, sep);
        { SplitAfterPieces(rest, sep, t); }
        [pre[0]] + (rest + Split(t, sep));
        { assert [pre[0]] + rest == pre; }
        pre + Split(t, sep);
      }
    }
  }

  /**
   * Text appended after the joined pieces only extends the last one: every
   * earlier piece comes back unchanged from the split.
   */
  lemma LeadingPieces(path: seq<string>, sep: char, t: string)
    requires |path| >= 2
    requires forall k :: 0 <= k < |path| ==> sep !in path[k]
    ensures |Split(Join(path, sep) + t, sep)| >= |path|
    ensures Split(Join(path, sep) + t, sep)[..|path| - 1] == path[..|path| - 1]
  {
    var n := |path| - 1;
    var pre, post := path[..n], path[n..];
    assert pre + post == path;
    JoinAppend(pre, post, sep);
    assert Join(post, sep) == path[n];
    var tail := path[n] + t;
    assert Join(path, sep) + t == Join(pre, sep) + [sep] + tail;
    assert forall k :: 0 <= k < |pre| ==> sep !in pre[k] by {
      forall k | 0 <= k < |pre| ensures sep !in pre[k] { assert pre[k] == path[k]; }
    }
    SplitAfterPieces(pre, sep, tail);
  }

  /** Joining one-character names with '/' after a leading empty segment. */
  lemma {:induction false} JoinSegments(segs: seq<string>, text: string)
    requires |segs| >= 1 && segs[0] == []
    requires |text| == 2 * (|segs| - 1)
    requires forall k :: 1 <= k < |segs| ==> text[2 * k - 2] == '/' && segs[k] == [text[2 * k - 1]]
    ensures Join(segs, '/') == text
    decreases |segs|
  {
    if |segs| > 1 {
      var rest := [[]] + segs[2..];
      var tail := text[2..];
      forall k | 1 <= k < |rest|
        ensures tail[2 * k - 2] == '/' && rest[k] == [tail[2 * k - 1]]
      {
        assert rest[k] == segs[k + 1];
      }
      JoinSegments(rest, tail);
      assert segs[1..] == [segs[1]] + segs[2..];
      JoinShift(segs[1], segs[2..], '/');
      assert text == [text[0], text[1]] + tail;
    }
  }

  /** Joining is the first piece, the separator, then the rest joined. */
  lemma JoinShift(first: string, rest: seq<string>, sep: char)
    ensures Join([first] + rest, sep) == first + Join([[]] + rest, sep)
  {
  }

  /** `items[k]` as string concatenation renders it: past the end it reads "undefined". */
  function Item(items: seq<string>, k: nat): (r: string)
    ensures k < |items| ==> r == items[k]
    ensures k >= |items| ==> r == "undefined"
  {
    if k < |items| then items[k] else "undefined"
  }

  /** The UTF-16 code units of one character (a surrogate pair above U+FFFF). */
  function CodeUnits(c: char): (units: seq<int>)
    ensures 1 <= |units| <= 2
    ensures forall i :: 0 <= i < |units| ==> 0 <= units[i] < 0x10000
  {
    var v := c as int;
    if v < 0x10000 then [v]
    else [0xD800 + (v - 0x10000) / 0x400, 0xDC00 + (v - 0x10000) % 0x400]
  }

  /** The UTF-16 code units of a string, which is what JavaScript strings consist of. */
  function Utf16(s: string): (units: seq<int>)
    ensures |units| >= |s|
  {
    if s == [] then [] else CodeUnits(s[0]) + Utf16(s[1..])
  }

  /** Lexicographic order on code-unit sequences; a proper prefix comes first. */
  predicate LexLe(a: seq<int>, b: seq<int>)
  {
    a == [] || (b != [] && (a[0] < b[0] || (a[0] == b[0] && LexLe(a[1..], b[1..]))))
  }

  lemma {:induction false} LexLeTotal(a: seq<int>, b: seq<int>)
    ensures LexLe(a, b) || LexLe(b, a)
    decreases |a|
  {
    if a != [] && b != [] && a[0] == b[0] {
      LexLeTotal(a[1..], b[1..]);
    }
  }

  lemma {:induction false} LexLeTransitive(a: seq<int>, b: seq<int>, c: seq<int>)
    requires LexLe(a, b) && LexLe(b, c)
    ensures LexLe(a, c)
    decreases |a|
  {
    if a != [] && a[0] == b[0] && b[0] == c[0] {
      LexLeTransitive(a[1..], b[1..], c[1..]);
    }
  }

  /** The comparison `Array.prototype.sort` uses when given no comparator. */
  predicate CodeUnitLe(x: string, y: string)
  {
    LexLe(Utf16(x), Utf16(y))
  }

  lemma CodeUnitLeTotal(x: string, y: string)
    ensures CodeUnitLe(x, y) || CodeUnitLe(y, x)
  {
    LexLeTotal(Utf16(x), Utf16(y));
  }

  lemma CodeUnitLeTransitive(x: string, y: string, z: string)
    requires CodeUnitLe(x, y) && CodeUnitLe(y, z)
    ensures CodeUnitLe(x, z)
  {
    LexLeTransitive(Utf16(x), Utf16(y), Utf16(z));
  }

  /** Ascending in the default sort order, every pair compared. */
  predicate SortedByCodeUnits(s: seq<string>)
  {
    forall i, j :: 0 <= i < j < |s| ==> CodeUnitLe(s[i], s[j])
  }

  /**
   * Code-unit order is not code-point order: U+10000 is stored as the
   * surrogate pair D800 DC00 and so sorts before U+FFFF.
   */
  lemma SupplementarySortsBeforeLastBmpChar()
    ensures CodeUnitLe("\U{10000}", "\U{FFFF}")
    ensures !CodeUnitLe("\U{FFFF}", "\U{10000}")
    ensures '\U{FFFF}' < '\U{10000}'
  {
    assert Utf16("\U{10000}") == [0xD800, 0xDC00];
    assert Utf16("\U{FFFF}") == [0xFFFF];
  }

  function DigitChar(d: nat): (c: char)
    requires d < 10
    ensures '0' <= c <= '9' && c as int - '0' as int == d
  {
    ('0' as int + d) as char
  }

  /** Decimal digits of a natural number, most significant first, no leading zeros. */
  function NatDigits(n: nat): (r: string)
    ensures |r| >= 1
    ensures forall i :: 0 <= i < |r| ==> '0' <= r[i] <= '9'
    ensures n != 0 ==> r[0] != '0'
    decreases n
  {
    if n < 10 then [DigitChar(n)] else NatDigits(n / 10) + [DigitChar(n % 10)]
  }

  /** How `'...' + n` renders an integer: decimal, with a minus sign when negative. */
  function NumberToString(n: int): (r: string)
    ensures |r| >= 1
    ensures r[0] == '-' <==> n < 0
    ensures forall i :: (if n < 0 then 1 else 0) <= i < |r| ==> '0' <= r[i] <= '9'
    ensures n < 0 ==> |r| >= 2
    ensures n != 0 ==> r[if n < 0 then 1 else 0] != '0'
  {
    if n < 0 then "-" + NatDigits(-n) else NatDigits(n)
  }

  /** Reads decimal digits back (the inverse of NatDigits). */
  function ParseDigits(s: string): int
    decreases |s|
  {
    if s == [] then 0 else ParseDigits(s[..|s| - 1]) * 10 + (s[|s| - 1] as int - '0' as int)
  }

  /** Reads a rendered integer back: an optional minus sign, then digits. */
  function ParseNumber(s: string): int
  {
    if s != [] && s[0] == '-' then -ParseDigits(s[1..]) else ParseDigits(s)
  }

  lemma {:induction false} NatDigitsRoundTrip(n: nat)
    ensures ParseDigits(NatDigits(n)) == n
    decreases n
  {
    var r := NatDigits(n);
    if n < 10 {
      assert r == [DigitChar(n)];
      assert r[..|r| - 1] == [];
    } else {
      var q, d := n / 10, n % 10;
      NatDigitsRoundTrip(q);
      assert r == NatDigits(q) + [DigitChar(d)];
      assert r[..|r| - 1] == NatDigits(q) && r[|r| - 1] == DigitChar(d);
      assert ParseDigits(r) == q * 10 + d;
    }
  }

  /** The rendered integer reads back as the same integer. */
  lemma NumberToStringRoundTrip(n: int)
    ensures ParseNumber(NumberToString(n)) == n
  {
    var r := NumberToString(n);
    if n < 0 {
      var d := NatDigits(-n);
      NatDigitsRoundTrip(-n);
      assert r == "-" + d && r[0] == '-' && r[1..] == d;
    } else {
      var d := NatDigits(n);
      NatDigitsRoundTrip(n);
      assert r == d && '0' <= r[0] <= '9';
    }
  }
}
