/** The string operations the application relies on, with JavaScript's and SQLite's meaning:
    `split`, `join`, `toString`/`||` on integers, `parseInt`, `padStart`, `toUpperCase`
    and the BINARY collation SQLite uses for `ORDER BY` on text. */
module Text {
  import opened Js

  /** No character of `s` belongs to `cs`. */
  predicate Excludes(s: string, cs: set<char>)
  {
    forall i :: 0 <= i < |s| ==> s[i] !in cs
  }

  /** `s.split(sep)` in JavaScript, for a separator that matches one character of `seps`
      (`split(';')`, `split(':')`, `split(/[\\/]/)`): the pieces between separators, in order.
      The last piece is what follows the last separator, or all of `s` when there is none. */
  function Split(s: string, seps: set<char>): (parts: seq<string>)
    ensures |parts| >= 1
    ensures forall k :: 0 <= k < |parts| ==> Excludes(parts[k], seps)
    ensures Excludes(s, seps) ==> parts == [s]
    decreases |s|
  {
    if s == [] then [""]
    else
      var rest := Split(s[1..], seps);
      if s[0] in seps then [""] + rest
      else
        assert Excludes(s, seps) ==> Excludes(s[1..], seps) && [s[0]] + s[1..] == s;
        [[s[0]] + rest[0]] + rest[1..]
  }

  /** `s.split(sep).pop()`: the last piece of a split. */
  function LastPiece(s: string, seps: set<char>): string
  {
    var parts := Split(s, seps);
    parts[|parts| - 1]
  }

  /** The last piece of a split is what follows the last separator: a suffix of `s` that is
      either all of `s` or preceded by a separator. */
  lemma {:induction false} SplitLast(s: string, seps: set<char>)
    ensures |Split(s, seps)| == 1 ==> LastPiece(s, seps) == s
    ensures |LastPiece(s, seps)| <= |s| && s[|s| - |LastPiece(s, seps)|..] == LastPiece(s, seps)
    ensures |LastPiece(s, seps)| < |s| ==> s[|s| - |LastPiece(s, seps)| - 1] in seps
    decreases |s|
  {
    if s != [] {
      SplitLast(s[1..], seps);
      var rest := Split(s[1..], seps);
      var last := LastPiece(s[1..], seps);
      if s[0] !in seps && |rest| == 1 {
        assert LastPiece(s, seps) == [s[0]] + s[1..] == s;
      } else {
        assert LastPiece(s, seps) == last;
        assert s[1..][|s| - 1 - |last|..] == s[|s| - |last|..];
      }
    }
  }

  /** `parts.join(sep)` in JavaScript (also SQLite's `GROUP_CONCAT(x, sep)` over non-NULL items):
      the empty list joins to the empty string. */
  function Join(parts: seq<string>, sep: string): string
  {
    if parts == [] then ""
    else if |parts| == 1 then parts[0]
    else parts[0] + sep + Join(parts[1..], sep)
  }

  /** Splitting what was joined gives the pieces back, provided no piece holds the separator. */
  lemma {:induction false} SplitJoin(parts: seq<string>, c: char)
    requires |parts| >= 1
    requires forall k :: 0 <= k < |parts| ==> Excludes(parts[k], {c})
    ensures Split(Join(parts, [c]), {c}) == parts
  {
    if |parts| > 1 {
      SplitJoin(parts[1..], c);
      SplitAfterPiece(parts[0], c, Join(parts[1..], [c]));
      assert [parts[0]] + parts[1..] == parts;
    }
  }

  /** Splitting a piece followed by the separator peels that piece off. */
  lemma {:induction false} SplitAfterPiece(p: string, c: char, rest: string)
    requires Excludes(p, {c})
    ensures Split(p + [c] + rest, {c}) == [p] + Split(rest, {c})
    decreases |p|
  {
    var s := p + [c] + rest;
    if p == [] {
      assert s[1..] == rest;
    } else {
      assert s[1..] == p[1..] + [c] + rest;
      SplitAfterPiece(p[1..], c, rest);
      assert [p[0]] + p[1..] == p;
    }
  }

  /** Joining what was split gives the text back. */
  lemma {:induction false} JoinSplit(s: string, c: char)
    ensures Join(Split(s, {c}), [c]) == s
    decreases |s|
  {
    if s != [] {
      JoinSplit(s[1..], c);
      var rest := Split(s[1..], {c});
      if s[0] == c {
        assert Join([""] + rest, [c]) == "" + [c] + Join(rest, [c]);
      } else if |rest| == 1 {
        assert Split(s, {c}) == [[s[0]] + rest[0]];
      } else {
        var parts := Split(s, {c});
        assert parts == [[s[0]] + rest[0]] + rest[1..];
        assert parts[1..] == rest[1..];
        assert Join(rest, [c]) == rest[0] + [c] + Join(rest[1..], [c]);
      }
    }
  }

  /** SQLite's BINARY collation on text, which `ORDER BY name` and `ORDER BY v.file_path` use.
      Comparing code points in order is the same as comparing the UTF-8 bytes SQLite stores. */
  predicate LexLe(a: string, b: string)
    decreases |a|
  {
    a == [] || (b != [] && (a[0] < b[0] || (a[0] == b[0] && LexLe(a[1..], b[1..]))))
  }

  lemma {:induction false} LexLeTotal(a: string, b: string)
    ensures LexLe(a, b) || LexLe(b, a)
    decreases |a|
  {
    if a != [] && b != [] && a[0] == b[0] {
      LexLeTotal(a[1..], b[1..]);
    }
  }

  lemma {:induction false} LexLeTransitive(a: string, b: string, c: string)
    requires LexLe(a, b) && LexLe(b, c)
    ensures LexLe(a, c)
    decreases |a|
  {
    if a != [] && a[0] == b[0] && b[0] == c[0] {
      LexLeTransitive(a[1..], b[1..], c[1..]);
    }
  }

  lemma {:induction false} LexLeAntisymmetric(a: string, b: string)
    requires LexLe(a, b) && LexLe(b, a)
    ensures a == b
    decreases |a|
  {
    if a != [] {
      LexLeAntisymmetric(a[1..], b[1..]);
      assert a == [a[0]] + a[1..] && b == [b[0]] + b[1..];
    }
  }

  predicate IsDigit(c: char)
  {
    '0' <= c <= '9'
  }

  predicate AllDigits(s: string)
  {
    forall i :: 0 <= i < |s| ==> IsDigit(s[i])
  }

  function DigitChar(d: nat): (c: char)
    requires d < 10
    ensures IsDigit(c) && c as int - '0' as int == d
  {
    ('0' as int + d) as char
  }

  /** The number a run of decimal digits denotes, most significant digit first. */
  function DigitsValue(s: string): nat
    requires AllDigits(s)
  {
    if s == [] then 0 else 10 * DigitsValue(s[..|s| - 1]) + (s[|s| - 1] as int - '0' as int)
  }

  /** The decimal text of a non-negative integer, as `Number.prototype.toString` and SQLite's
      `||` render it: at least one digit, no leading zero, denoting `n`. */
  function NatToString(n: nat): (s: string)
    ensures |s| >= 1 && AllDigits(s) && DigitsValue(s) == n
    ensures |s| > 1 ==> s[0] != '0'
  {
    var front := if n < 10 then "" else NatToString(n / 10);
    var s := front + [DigitChar(n % 10)];
    assert s[..|s| - 1] == front;
    s
  }

  /** The decimal text of an integer, with a leading '-' when it is negative. */
  function IntToString(n: int): string
  {
    if n < 0 then "-" + NatToString(-n) else NatToString(n)
  }

  /** The longest run of decimal digits at the start of `s`. */
  function DigitPrefix(s: string): (p: string)
    ensures |p| <= |s| && p == s[..|p|] && AllDigits(p)
    ensures |p| < |s| ==> !IsDigit(s[|p|])
  {
    if s != [] && IsDigit(s[0]) then [s[0]] + DigitPrefix(s[1..]) else ""
  }

  /** JavaScript's `parseInt(s)` on decimal text: an optional sign, then the longest run of
      digits after it; `None` stands for `NaN`, the result when no digit follows the sign. */
  function ParseInt(s: string): (r: Option<int>)
    ensures r.Some? <==>
      var body := if |s| > 0 && (s[0] == '-' || s[0] == '+') then s[1..] else s;
      |body| > 0 && IsDigit(body[0])
  {
    var body := if |s| > 0 && (s[0] == '-' || s[0] == '+') then s[1..] else s;
    var digits := DigitPrefix(body);
    if digits == [] then None
    else
      var n: int := DigitsValue(digits);
      if s[0] == '-' then Some(-n) else Some(n)
  }

  /** `parseInt` reads back the decimal text of every integer. */
  lemma ParseIntOfIntToString(n: int)
    ensures ParseInt(IntToString(n)) == Some(n)
  {
    var digits := NatToString(if n < 0 then -n else n);
    DigitPrefixOfDigits(digits);
    if n < 0 {
      assert IntToString(n)[1..] == digits;
    }
  }

  /** A run of digits is its own longest digit prefix. */
  lemma DigitPrefixOfDigits(s: string)
    requires AllDigits(s)
    ensures DigitPrefix(s) == s
  {
  }

  /** `s.padStart(width, fill)` with a one-character fill: `s` with copies of `fill` put in
      front until it is `width` long; a text already that long is left alone. */
  function PadStart(s: string, width: nat, fill: char): (r: string)
    ensures |r| == if |s| < width then width else |s|
    ensures r[|r| - |s|..] == s
    ensures forall i :: 0 <= i < |r| - |s| ==> r[i] == fill
  {
    if |s| >= width then s else seq(width - |s|, _ => fill) + s
  }

  /** `toUpperCase` on one character, for the ASCII letters. */
  function UpperChar(c: char): char
  {
    if 'a' <= c <= 'z' then (c as int - 32) as char else c
  }

  /** `toUpperCase` applied to every character. */
  function ToUpper(s: string): (r: string)
    ensures |r| == |s| && forall i :: 0 <= i < |s| ==> r[i] == UpperChar(s[i])
  {
    seq(|s|, i requires 0 <= i < |s| => UpperChar(s[i]))
  }
}
