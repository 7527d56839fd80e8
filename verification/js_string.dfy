/** The parts of JavaScript's built-in string behaviour that the style
    transform and the path formatter are made of: `String.prototype.trim`,
    `split` on a one-character separator, `Array.prototype.join`,
    `toLowerCase`, and the rendering of an integral number as a string.
    Each is given a definition that follows the built-in and, beside it,
    the independent description or inverse it is proved against. */
module JsString {
  import opened Optional

  /* ---------------------------------------------------------------- trim */

  /** The WhiteSpace and LineTerminator code points of ECMAScript
      (sections 12.2 and 12.3 of ECMA-262): exactly what `trim` removes. */
  predicate IsWhitespace(c: char) {
    var n := c as int;
    || n == 0x09 || n == 0x0A || n == 0x0B || n == 0x0C || n == 0x0D
    || n == 0x20 || n == 0xA0 || n == 0x1680 || (0x2000 <= n <= 0x200A)
    || n == 0x2028 || n == 0x2029 || n == 0x202F || n == 0x205F
    || n == 0x3000 || n == 0xFEFF
  }

  /** No whitespace at either end: the shape `trim` always leaves. */
  predicate Unpadded(s: string) {
    |s| == 0 || (!IsWhitespace(s[0]) && !IsWhitespace(s[|s| - 1]))
  }

  /** Drops leading whitespace: the result is the longest suffix of `s`
      that does not start with whitespace. */
  function TrimStart(s: string): (r: string)
    ensures |r| <= |s| && r == s[|s| - |r|..]
    ensures forall i | 0 <= i < |s| - |r| :: IsWhitespace(s[i])
    ensures |r| == 0 || !IsWhitespace(r[0])
  {
    if |s| > 0 && IsWhitespace(s[0]) then TrimStart(s[1..]) else s
  }

  /** Drops trailing whitespace: the result is the longest prefix of `s`
      that does not end with whitespace. */
  function TrimEnd(s: string): (r: string)
    ensures |r| <= |s| && r == s[..|r|]
    ensures forall i | |r| <= i < |s| :: IsWhitespace(s[i])
    ensures |r| == 0 || !IsWhitespace(r[|r| - 1])
  {
    if |s| > 0 && IsWhitespace(s[|s| - 1]) then TrimEnd(s[..|s| - 1]) else s
  }

  /** `s.trim()`: the slice of `s` left once the whitespace at both ends is
      removed, and nothing else. */
  function Trim(s: string): (r: string)
    ensures exists i, j | 0 <= i <= j <= |s| ::
      && r == s[i..j]
      && (forall k | 0 <= k < i :: IsWhitespace(s[k]))
      && (forall k | j <= k < |s| :: IsWhitespace(s[k]))
    ensures Unpadded(r)
    ensures Unpadded(s) ==> r == s
    ensures |r| <= |s|
    ensures r == "" ==> forall i | 0 <= i < |s| :: IsWhitespace(s[i])
  {
    var t := TrimStart(s);
    var r := TrimEnd(t);
    // an all-whitespace remainder after TrimStart can only be empty
    assert r == "" ==> |t| == 0;
    TrimSlice(s, |s| - |t|, t, r);
    r
  }

  /** Trimming the end of the suffix `t == s[i..]` leaves a slice of `s`
      followed only by whitespace. */
  lemma TrimSlice(s: string, i: nat, t: string, r: string)
    requires i <= |s| && t == s[i..] && r == TrimEnd(t)
    ensures i + |r| <= |s| && r == s[i..i + |r|]
    ensures forall k | i + |r| <= k < |s| :: IsWhitespace(s[k])
  {
    forall k | i + |r| <= k < |s| ensures IsWhitespace(s[k]) {
      assert s[k] == t[k - i];
    }
  }

  /** Trimming `a + " " + b`, where `a` is non-empty and both pieces are
      already trimmed, leaves `a` alone when `b` is empty and the whole
      string otherwise. */
  lemma {:induction false} TrimSpaced(a: string, b: string)
    requires |a| > 0 && Unpadded(a) && Unpadded(b)
    ensures Trim(a + " " + b) == if b == "" then a else a + " " + b
  {
    var s := a + " " + b;
    if b == "" {
      assert s == a + " ";
      assert TrimStart(s) == s;
      assert s[..|s| - 1] == a;
      assert TrimEnd(s) == TrimEnd(a) == a;
    } else {
      assert s[0] == a[0] && s[|s| - 1] == b[|b| - 1];
    }
  }

  /** Trimming ignores one leading whitespace character. */
  lemma TrimLeadingWhitespace(c: char, s: string)
    requires IsWhitespace(c)
    ensures Trim([c] + s) == Trim(s)
  {
    assert ([c] + s)[1..] == s;
  }

  /** Concatenation is associative; stated once so that proofs regroup
      strings by citing it instead of comparing them element by element. */
  lemma AppendAssoc<T>(a: seq<T>, b: seq<T>, c: seq<T>)
    ensures a + b + c == a + (b + c)
  {
  }

  /* ---------------------------------------------------------- split/join */

  /** Total length of the pieces. */
  function SumLengths(parts: seq<string>): nat {
    if |parts| == 0 then 0 else |parts[0]| + SumLengths(parts[1..])
  }

  /** How many separators `join` puts between `n` pieces: max(n - 1, 0). */
  function Gaps(n: nat): nat {
    if n == 0 then 0 else n - 1
  }

  /** `parts.join(sep)`: the pieces with `sep` between neighbours, `""`
      for no pieces. */
  function Join(parts: seq<string>, sep: string): (r: string)
    ensures |r| == SumLengths(parts) + |sep| * Gaps(|parts|)
  {
    if |parts| == 0 then ""
    else if |parts| == 1 then parts[0]
    else
      var rest := Join(parts[1..], sep);
      assert |sep| * Gaps(|parts|) == |sep| + |sep| * Gaps(|parts| - 1);
      parts[0] + sep + rest
  }

  /** `s.split(c)` for a one-character separator: the maximal runs between
      occurrences of `c`; the empty string splits into `[""]`. */
  function Split(s: string, c: char): (parts: seq<string>)
    ensures |parts| >= 1
    ensures forall i | 0 <= i < |parts| :: c !in parts[i]
    ensures c in s ==> |parts| >= 2
  {
    if |s| == 0 then [""]
    else
      var rest := Split(s[1..], c);
      if s[0] == c then [""] + rest
      else
        assert c in s ==> c in s[1..] by {
          if c in s {
            var i :| 0 <= i < |s| && s[i] == c;
            assert s[1..][i - 1] == c;
          }
        }
        [[s[0]] + rest[0]] + rest[1..]
  }

  /** Every occurrence of `c` in `s` replaced by `d`. */
  function Replace(s: string, c: char, d: char): (r: string)
    ensures |r| == |s|
    ensures forall i | 0 <= i < |s| :: r[i] == if s[i] == c then d else s[i]
  {
    seq(|s|, i requires 0 <= i < |s| => if s[i] == c then d else s[i])
  }

  /** Joining the pieces of a split with another one-character separator
      replaces the split character. */
  lemma {:induction false} JoinSplitIsReplace(s: string, c: char, d: char)
    ensures Join(Split(s, c), [d]) == Replace(s, c, d)
  {
    if |s| > 0 {
      var rest := Split(s[1..], c);
      JoinSplitIsReplace(s[1..], c, d);
      ReplaceFirst(s, c, d);
      if s[0] == c {
        var parts := [""] + rest;
        assert Split(s, c) == parts;
        assert parts[1..] == rest;
        assert Join(parts, [d]) == "" + [d] + Join(rest, [d]);
      } else {
        var parts := [[s[0]] + rest[0]] + rest[1..];
        assert Split(s, c) == parts;
        if |rest| > 1 {
          var tail := Join(rest[1..], [d]);
          assert parts[1..] == rest[1..];
          assert Join(parts, [d]) == [s[0]] + rest[0] + [d] + tail;
          assert Join(rest, [d]) == rest[0] + [d] + tail;
          AppendAssoc([s[0]] + rest[0], [d], tail);
          AppendAssoc([s[0]], rest[0], [d] + tail);
          AppendAssoc(rest[0], [d], tail);
        }
      }
    }
  }

  /** Replacing in a non-empty string replaces its first character and
      then the rest. */
  lemma ReplaceFirst(s: string, c: char, d: char)
    requires |s| > 0
    ensures Replace(s, c, d) == [if s[0] == c then d else s[0]] + Replace(s[1..], c, d)
  {
  }

  /** Splitting and re-joining with the same separator gives the string back. */
  lemma JoinSplit(s: string, c: char)
    ensures Join(Split(s, c), [c]) == s
  {
    JoinSplitIsReplace(s, c, c);
  }

  /** A string without the separator splits into itself alone. */
  lemma {:induction false} SplitWithoutSeparator(s: string, c: char)
    requires c !in s
    ensures Split(s, c) == [s]
  {
    if |s| > 0 {
      assert c !in s[1..];
      SplitWithoutSeparator(s[1..], c);
      assert [s[0]] + s[1..] == s;
    }
  }

  /** A separator-free first piece followed by the separator splits off
      as one piece. */
  lemma {:induction false} SplitAfterSeparator(x: string, c: char, t: string)
    requires c !in x
    ensures Split(x + [c] + t, c) == [x] + Split(t, c)
  {
    var s := x + [c] + t;
    if |x| == 0 {
      assert s[1..] == t;
    } else {
      assert s[1..] == x[1..] + [c] + t;
      assert c !in x[1..];
      SplitAfterSeparator(x[1..], c, t);
      assert [x[0]] + x[1..] == x;
    }
  }

  /** Splitting a join gives the pieces back, provided there is at least
      one piece and no piece contains the separator. */
  lemma {:induction false} SplitJoin(parts: seq<string>, c: char)
    requires |parts| >= 1
    requires forall i | 0 <= i < |parts| :: c !in parts[i]
    ensures Split(Join(parts, [c]), c) == parts
  {
    if |parts| == 1 {
      SplitWithoutSeparator(parts[0], c);
    } else {
      SplitJoin(parts[1..], c);
      SplitAfterSeparator(parts[0], c, Join(parts[1..], [c]));
      assert [parts[0]] + parts[1..] == parts;
    }
  }

  /** Appending a piece appends the separator and the piece. */
  lemma {:induction false} JoinSnoc(parts: seq<string>, x: string, sep: string)
    requires |parts| >= 1
    ensures Join(parts + [x], sep) == Join(parts, sep) + sep + x
  {
    if |parts| == 1 {
      assert (parts + [x])[1..] == [x];
    } else {
      assert (parts + [x])[1..] == parts[1..] + [x];
      JoinSnoc(parts[1..], x, sep);
    }
  }

  /** A character in neither the pieces nor the separator is not in the join. */
  lemma {:induction false} JoinExcludes(parts: seq<string>, sep: string, c: char)
    requires c !in sep
    requires forall i | 0 <= i < |parts| :: c !in parts[i]
    ensures c !in Join(parts, sep)
  {
    if |parts| > 1 {
      JoinExcludes(parts[1..], sep, c);
    }
  }

  /** Each piece preceded by `sep`, all concatenated: what a loop that
      appends `sep + piece` to an accumulator builds. */
  function Prefixed(parts: seq<string>, sep: string): string {
    if |parts| == 0 then "" else sep + parts[0] + Prefixed(parts[1..], sep)
  }

  /** Prefixing non-empty pieces gives the empty string exactly when there
      are no pieces, and otherwise ends where the last piece ends. */
  lemma {:induction false} PrefixedEnd(parts: seq<string>, sep: string)
    requires forall i | 0 <= i < |parts| :: |parts[i]| > 0
    ensures var r := Prefixed(parts, sep);
      && (|r| == 0 <==> |parts| == 0)
      && (|parts| > 0 ==> r[|r| - 1] == parts[|parts| - 1][|parts[|parts| - 1]| - 1])
  {
    if |parts| > 0 {
      var rest := Prefixed(parts[1..], sep);
      PrefixedEnd(parts[1..], sep);
      assert Prefixed(parts, sep) == sep + parts[0] + rest;
    }
  }

  /** A join is its first piece followed by every other piece prefixed
      with the separator. */
  lemma {:induction false} JoinIsPrefixed(parts: seq<string>, sep: string)
    requires |parts| >= 1
    ensures Join(parts, sep) == parts[0] + Prefixed(parts[1..], sep)
  {
    if |parts| > 1 {
      JoinIsPrefixed(parts[1..], sep);
      assert parts[1..][1..] == parts[2..];
    }
  }

  /** Joining non-empty trimmed pieces gives a non-empty trimmed string
      whenever there is a piece. */
  lemma {:induction false} JoinUnpadded(parts: seq<string>, sep: string)
    requires forall i | 0 <= i < |parts| :: |parts[i]| > 0 && Unpadded(parts[i])
    ensures Unpadded(Join(parts, sep))
    ensures |parts| > 0 ==> |Join(parts, sep)| > 0
  {
    if |parts| > 1 {
      JoinUnpadded(parts[1..], sep);
      var rest := Join(parts[1..], sep);
      var r := parts[0] + sep + rest;
      assert r[0] == parts[0][0];
      assert r[|r| - 1] == rest[|rest| - 1];
    }
  }

  /** Trimming the space-prefixed concatenation of non-empty trimmed
      pieces gives their space-separated join. */
  lemma TrimPrefixedIsJoin(parts: seq<string>)
    requires forall i | 0 <= i < |parts| :: |parts[i]| > 0 && Unpadded(parts[i])
    ensures Trim(Prefixed(parts, " ")) == Join(parts, " ")
  {
    if |parts| > 0 {
      var tail := Prefixed(parts[1..], " ");
      JoinIsPrefixed(parts, " ");
      JoinUnpadded(parts, " ");
      var joined := Join(parts, " ");
      assert joined == parts[0] + tail;
      assert Prefixed(parts, " ") == " " + parts[0] + tail;
      AppendAssoc(" ", parts[0], tail);
      TrimLeadingWhitespace(' ', joined);
      assert Trim(joined) == joined;
    }
  }

  /* ----------------------------------------------------------- lowercase */

  /** `toLowerCase` on one character, for the ASCII letters. */
  function LowerChar(c: char): char {
    if 'A' <= c <= 'Z' then (c as int - 'A' as int + 'a' as int) as char else c
  }

  /** `s.toLowerCase()`, on ASCII letters. */
  function Lower(s: string): (r: string)
    ensures |r| == |s|
    ensures forall i | 0 <= i < |r| :: !('A' <= r[i] <= 'Z')
    ensures forall i | 0 <= i < |s| :: !('A' <= s[i] <= 'Z') ==> r[i] == s[i]
    ensures forall i | 0 <= i < |s| :: 'A' <= s[i] <= 'Z' ==>
      'a' <= r[i] <= 'z' && r[i] as int - 'a' as int == s[i] as int - 'A' as int
    ensures forall i | 0 <= i < |s| :: IsWhitespace(r[i]) <==> IsWhitespace(s[i])
  {
    seq(|s|, i requires 0 <= i < |s| => LowerChar(s[i]))
  }

  /* ------------------------------------------------------------- numbers */

  predicate IsDigit(c: char) {
    '0' <= c <= '9'
  }

  function DigitChar(d: nat): (c: char)
    requires d < 10
  {
    ('0' as int + d) as char
  }

  /** Decimal digits of `n`, without leading zeros. */
  function NatToString(n: nat): (r: string)
    ensures |r| >= 1
    ensures forall i | 0 <= i < |r| :: IsDigit(r[i])
    ensures |r| > 1 ==> r[0] != '0'
  {
    if n < 10 then [DigitChar(n)] else NatToString(n / 10) + [DigitChar(n % 10)]
  }

  /** `String(n)` for an integral number: a minus sign for negatives, then
      the decimal digits of the magnitude. */
  function NumberToString(n: int): (r: string)
    ensures |r| >= 1
    ensures r[0] == '-' <==> n < 0
    ensures forall i | 0 <= i < |r| :: !IsWhitespace(r[i])
  {
    if n < 0 then "-" + NatToString(-n) else NatToString(n)
  }

  /** The value of a string of decimal digits. */
  function DigitsValue(s: string): nat
    requires forall i | 0 <= i < |s| :: IsDigit(s[i])
  {
    if |s| == 0 then 0
    else
      assert IsDigit(s[|s| - 1]);
      DigitsValue(s[..|s| - 1]) * 10 + (s[|s| - 1] as int - '0' as int)
  }

  /** One or more decimal digits with no leading zero: the shape
      `NatToString` writes. */
  predicate CanonicalDigits(d: string) {
    && |d| >= 1
    && (forall i | 0 <= i < |d| :: IsDigit(d[i]))
    && (|d| > 1 ==> d[0] != '0')
  }

  /** Reads back exactly what `NumberToString` writes: canonical digits,
      optionally after a minus sign when they are not "0"; anything else
      (a leading zero, "-0", a stray character) is `None`. */
  function ParseNumber(s: string): Option<int> {
    if |s| > 1 && s[0] == '-' && CanonicalDigits(s[1..]) && s[1..] != "0" then
      var magnitude: int := DigitsValue(s[1..]);
      Some(-magnitude)
    else if CanonicalDigits(s) then
      Some(DigitsValue(s))
    else None
  }

  lemma {:induction false} DigitsValueOfNat(n: nat)
    ensures DigitsValue(NatToString(n)) == n
  {
    if n >= 10 {
      DigitsValueOfNat(n / 10);
      var s := NatToString(n);
      assert s[..|s| - 1] == NatToString(n / 10);
    }
  }

  /** Rendering an integer and reading it back gives the integer. */
  lemma NumberRoundTrip(n: int)
    ensures ParseNumber(NumberToString(n)) == Some(n)
  {
    if n < 0 {
      DigitsValueOfNat(-n);
      assert NumberToString(n)[1..] == NatToString(-n);
    } else {
      DigitsValueOfNat(n);
    }
  }

  /** Canonical digits are the rendering of their own value. */
  lemma {:induction false} NatToStringOfDigits(d: string)
    requires CanonicalDigits(d)
    ensures NatToString(DigitsValue(d)) == d
  {
    if |d| > 1 {
      var p := d[..|d| - 1];
      assert CanonicalDigits(p) by {
        assert forall i | 0 <= i < |p| :: p[i] == d[i];
      }
      NatToStringOfDigits(p);
      var v := DigitsValue(p);
      // a zero prefix would be "0", but d does not start with '0'
      assert p[0] == d[0] && NatToString(0) == "0";
      assert v != 0;
      assert IsDigit(d[|d| - 1]);
      var c := d[|d| - 1] as int - '0' as int;
      assert DigitsValue(d) == v * 10 + c;
      assert (v * 10 + c) / 10 == v && (v * 10 + c) % 10 == c;
      assert d == p + [d[|d| - 1]];
    } else {
      assert IsDigit(d[0]);
    }
  }

  /** The other direction of the round trip: every string `ParseNumber`
      accepts is the rendering of the number it reads, so a rendering
      is pinned down by its value. */
  lemma ParseNumberCanonical(s: string)
    ensures ParseNumber(s).Some? ==> NumberToString(ParseNumber(s).value) == s
  {
    if |s| > 1 && s[0] == '-' && CanonicalDigits(s[1..]) && s[1..] != "0" {
      NatToStringOfDigits(s[1..]);
      assert NatToString(0) == "0";
      assert s == "-" + s[1..];
    } else if CanonicalDigits(s) {
      NatToStringOfDigits(s);
    }
  }
}
