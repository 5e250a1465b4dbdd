/**
 * The few pieces of java.lang.String behaviour the parsers rely on:
 * removing carriage returns, `split` on a one-character separator (with
 * Java's rule of dropping trailing empty fields), decimal rendering of
 * integers as string concatenation and MessageFormat print them, substring
 * search, and the `[\w ]+=[\w ]*` header pattern.
 */
module Strings {
  import opened Wrappers

  /** `s.replaceAll("\r", "")`: the string with every carriage return removed. */
  function StripCR(s: string): (r: string)
    ensures '\r' !in r
    ensures forall c :: c in r <==> c in s && c != '\r'
    ensures '\r' !in s ==> r == s
  {
    if |s| == 0 then ""
    else if s[0] == '\r' then StripCR(s[1..])
    else [s[0]] + StripCR(s[1..])
  }

  lemma {:induction false} StripCRConcat(a: string, b: string)
    ensures StripCR(a + b) == StripCR(a) + StripCR(b)
  {
    if |a| == 0 {
      assert a + b == b;
    } else {
      assert (a + b)[0] == a[0];
      assert (a + b)[1..] == a[1..] + b;
      StripCRConcat(a[1..], b);
    }
  }

  /** A Windows line ending leaves the same line once carriage returns are removed. */
  lemma StripCRTrailing(s: string)
    ensures StripCR(s + "\r") == StripCR(s)
  {
    StripCRConcat(s, "\r");
    assert StripCR("\r") == "";
  }

  /** Cuts `s` at every occurrence of `sep`: one more piece than there are separators. */
  function SplitAll(s: string, sep: char): (r: seq<string>)
    ensures |r| >= 1
    ensures forall i :: 0 <= i < |r| ==> sep !in r[i]
    decreases |s|
  {
    if |s| == 0 then [""]
    else
      var rest := SplitAll(s[1..], sep);
      if s[0] == sep then [""] + rest
      else [[s[0]] + rest[0]] + rest[1..]
  }

  /** Glues pieces back together with `sep` between neighbours. */
  function Join(parts: seq<string>, sep: char): string
  {
    if |parts| == 0 then ""
    else if |parts| == 1 then parts[0]
    else parts[0] + [sep] + Join(parts[1..], sep)
  }

  /** Cutting at every separator loses nothing: joining the pieces gives the string back. */
  lemma {:induction false} JoinSplitAll(s: string, sep: char)
    ensures Join(SplitAll(s, sep), sep) == s
  {
    if |s| > 0 {
      var rest := SplitAll(s[1..], sep);
      JoinSplitAll(s[1..], sep);
      if s[0] == sep {
        assert SplitAll(s, sep) == [""] + rest;
        assert ([""] + rest)[1..] == rest;
        assert s == [s[0]] + s[1..];
      } else {
        var parts := SplitAll(s, sep);
        assert parts == [[s[0]] + rest[0]] + rest[1..];
        if |rest| == 1 {
          assert s == [s[0]] + s[1..];
        } else {
          assert parts[1..] == rest[1..];
          assert Join(rest, sep) == rest[0] + [sep] + Join(rest[1..], sep);
          assert s == [s[0]] + s[1..];
        }
      }
    }
  }

  lemma {:induction false} SplitAllNoSeparator(s: string, sep: char)
    requires sep !in s
    ensures SplitAll(s, sep) == [s]
  {
    if |s| > 0 {
      SplitAllNoSeparator(s[1..], sep);
      assert s == [s[0]] + s[1..];
    }
  }

  lemma {:induction false} SplitAllAtSeparator(x: string, y: string, sep: char)
    ensures SplitAll(x + [sep] + y, sep) == SplitAll(x, sep) + SplitAll(y, sep)
  {
    var s := x + [sep] + y;
    if |x| == 0 {
      assert s == [sep] + y;
      assert s[1..] == y;
    } else {
      assert s[0] == x[0];
      assert s[1..] == x[1..] + [sep] + y;
      SplitAllAtSeparator(x[1..], y, sep);
      var a := SplitAll(x[1..], sep);
      var b := SplitAll(y, sep);
      if x[0] == sep {
        assert SplitAll(s, sep) == [""] + (a + b);
      } else {
        assert (a + b)[0] == a[0] && (a + b)[1..] == a[1..] + b;
        assert SplitAll(s, sep) == [[x[0]] + a[0]] + (a[1..] + b);
      }
    }
  }

  /** Joining pieces free of the separator and cutting the result again gives the pieces back. */
  lemma {:induction false} SplitAllJoin(parts: seq<string>, sep: char)
    requires |parts| >= 1
    requires forall i :: 0 <= i < |parts| ==> sep !in parts[i]
    ensures SplitAll(Join(parts, sep), sep) == parts
  {
    SplitAllNoSeparator(parts[0], sep);
    if |parts| > 1 {
      SplitAllJoin(parts[1..], sep);
      SplitAllAtSeparator(parts[0], Join(parts[1..], sep), sep);
      assert [parts[0]] + parts[1..] == parts;
    }
  }

  /** Java's `split` with limit zero removes the empty fields at the end of the result. */
  function DropTrailingEmpty(parts: seq<string>): (r: seq<string>)
    ensures r <= parts
    ensures |r| == 0 || r[|r| - 1] != ""
    ensures forall i :: |r| <= i < |parts| ==> parts[i] == ""
  {
    if |parts| == 0 then []
    else if parts[|parts| - 1] == "" then DropTrailingEmpty(parts[..|parts| - 1])
    else parts
  }

  /**
   * `s.split(sep)` for a separator that is a single literal character.
   * A string without the separator comes back whole, even when it is
   * empty; otherwise the pieces lose their trailing empty fields.
   */
  function JavaSplit(s: string, sep: char): (r: seq<string>)
    ensures forall i :: 0 <= i < |r| ==> sep !in r[i]
    ensures sep in s ==> |r| == 0 || r[|r| - 1] != ""
  {
    if sep !in s then [s] else DropTrailingEmpty(SplitAll(s, sep))
  }

  lemma SplitAllThree(a: string, b: string, c: string, sep: char)
    requires sep !in a && sep !in b && sep !in c
    ensures SplitAll(a + [sep] + b + [sep] + c, sep) == [a, b, c]
  {
    SplitAllNoSeparator(a, sep);
    SplitAllNoSeparator(b, sep);
    SplitAllNoSeparator(c, sep);
    SplitAllAtSeparator(b, c, sep);
    assert a + [sep] + b + [sep] + c == a + [sep] + (b + [sep] + c);
    SplitAllAtSeparator(a, b + [sep] + c, sep);
  }

  /**
   * A record line `a|b|c` splits into its three fields, and so does
   * `a|b|c|`: the trailing separator only adds an empty field that split
   * then drops.
   */
  lemma SplitThreeFields(a: string, b: string, c: string, sep: char)
    requires sep !in a && sep !in b && sep !in c
    requires c != ""
    ensures JavaSplit(a + [sep] + b + [sep] + c, sep) == [a, b, c]
    ensures JavaSplit(a + [sep] + b + [sep] + c + [sep], sep) == [a, b, c]
  {
    var s := a + [sep] + b + [sep] + c;
    SplitAllThree(a, b, c, sep);
    assert s[|a|] == sep;
    var t := s + [sep];
    SplitAllNoSeparator("", sep);
    SplitAllAtSeparator(s, "", sep);
    assert t + "" == t;
    assert SplitAll(t, sep) == [a, b, c] + [""];
    assert t[|a|] == sep;
  }

  /** A line with a fourth, non-empty field splits into all four: only trailing empty fields are dropped. */
  lemma SplitFourFields(a: string, b: string, c: string, d: string, sep: char)
    requires sep !in a && sep !in b && sep !in c && sep !in d
    requires d != ""
    ensures JavaSplit(a + [sep] + b + [sep] + c + [sep] + d, sep) == [a, b, c, d]
  {
    var s := a + [sep] + b + [sep] + c;
    SplitAllThree(a, b, c, sep);
    SplitAllNoSeparator(d, sep);
    SplitAllAtSeparator(s, d, sep);
    assert s[|a|] == sep;
  }

  predicate IsDigit(c: char) {
    '0' as int <= c as int <= '9' as int
  }

  function DigitChar(d: nat): (c: char)
    requires d < 10
    ensures IsDigit(c) && c as int - '0' as int == d
  {
    (d + '0' as int) as char
  }

  /** Decimal rendering of a natural number, most significant digit first. */
  function NatToString(n: nat): (s: string)
    ensures |s| >= 1
    ensures forall i :: 0 <= i < |s| ==> IsDigit(s[i])
    decreases n
  {
    if n < 10 then [DigitChar(n)] else NatToString(n / 10) + [DigitChar(n % 10)]
  }

  /** The number a string of decimal digits denotes. */
  function DigitsValue(s: string): nat
    requires forall i :: 0 <= i < |s| ==> IsDigit(s[i])
  {
    if |s| == 0 then 0
    else
      assert IsDigit(s[|s| - 1]);
      DigitsValue(s[..|s| - 1]) * 10 + (s[|s| - 1] as int - '0' as int)
  }

  /** Reading the rendering back gives the number: the rendering loses nothing. */
  lemma {:induction false} DigitsValueOfNatToString(n: nat)
    ensures DigitsValue(NatToString(n)) == n
  {
    if n >= 10 {
      DigitsValueOfNatToString(n / 10);
      var s := NatToString(n);
      assert s[..|s| - 1] == NatToString(n / 10);
    }
  }

  /** The longest run of decimal digits `s` ends with. */
  function TrailingDigits(s: string): (r: string)
    ensures forall i :: 0 <= i < |r| ==> IsDigit(r[i])
    ensures |r| <= |s| && r == s[|s| - |r|..]
    ensures |r| < |s| ==> !IsDigit(s[|s| - |r| - 1])
  {
    if |s| == 0 || !IsDigit(s[|s| - 1]) then ""
    else TrailingDigits(s[..|s| - 1]) + [s[|s| - 1]]
  }

  lemma TrailingDigitsPush(s: string, c: char)
    requires IsDigit(c)
    ensures TrailingDigits(s + [c]) == TrailingDigits(s) + [c]
  {
    assert (s + [c])[..|s|] == s;
  }

  /** Digits written after a non-digit are exactly the digits the text ends with. */
  lemma {:induction false} TrailingDigitsAfter(p: string, ds: string)
    requires |p| == 0 || !IsDigit(p[|p| - 1])
    requires forall i :: 0 <= i < |ds| ==> IsDigit(ds[i])
    ensures TrailingDigits(p + ds) == ds
    decreases |ds|
  {
    if |ds| == 0 {
      assert p + ds == p;
    } else {
      var front, last := ds[..|ds| - 1], ds[|ds| - 1];
      assert ds == front + [last];
      assert p + ds == (p + front) + [last];
      TrailingDigitsAfter(p, front);
      TrailingDigitsPush(p + front, last);
    }
  }

  lemma NatToStringInjective(n: nat, m: nat)
    ensures NatToString(n) == NatToString(m) ==> n == m
  {
    DigitsValueOfNatToString(n);
    DigitsValueOfNatToString(m);
  }

  /** `Integer.toString`: a minus sign before the digits of a negative number. */
  function IntToString(i: int): (s: string)
    ensures |s| >= 1
    ensures forall k :: 0 <= k < |s| ==> IsDigit(s[k]) || s[k] == '-'
  {
    if i < 0 then "-" + NatToString(-i) else NatToString(i)
  }

  lemma IntToStringSign(i: int)
    ensures IntToString(i)[0] == '-' <==> i < 0
  {
    if i >= 0 {
      assert IsDigit(NatToString(i)[0]);
    }
  }

  lemma IntToStringInjective(i: int, j: int)
    ensures IntToString(i) == IntToString(j) ==> i == j
  {
    if IntToString(i) == IntToString(j) {
      IntToStringSign(i);
      IntToStringSign(j);
      if i < 0 {
        assert IntToString(i)[1..] == NatToString(-i);
        assert IntToString(j)[1..] == NatToString(-j);
        NatToStringInjective(-i, -j);
      } else {
        NatToStringInjective(i, j);
      }
    }
  }

  /** `findInLine` with a pattern free of regular-expression metacharacters: a substring search. */
  predicate Contains(s: string, sub: string)
    decreases |s|
  {
    sub <= s || (|s| > 0 && Contains(s[1..], sub))
  }

  /** A string shorter than `sub` cannot contain it. */
  lemma {:induction false} NoRoomToContain(s: string, sub: string)
    requires |s| < |sub|
    ensures !Contains(s, sub)
    decreases |s|
  {
    if |s| > 0 {
      NoRoomToContain(s[1..], sub);
    }
  }

  /** A string as long as `sub` contains it only by being it. */
  lemma ContainsSameLength(s: string, sub: string)
    requires |s| == |sub|
    ensures Contains(s, sub) <==> s == sub
  {
    if |s| > 0 {
      NoRoomToContain(s[1..], sub);
    }
  }

  /**
   * Where `findInLine` leaves the line: the text after the first
   * occurrence of `sub`, if there is one.
   */
  function AfterFirst(s: string, sub: string): (r: Option<string>)
    ensures r.Some? <==> Contains(s, sub)
    decreases |s|
  {
    if sub <= s then Some(s[|sub|..])
    else if |s| == 0 then None
    else AfterFirst(s[1..], sub)
  }

  /** What is left after the match is the end of `s`, right behind an occurrence of `sub`. */
  lemma {:induction false} AfterFirstFollowsMatch(s: string, sub: string)
    requires AfterFirst(s, sub).Some?
    ensures var after := AfterFirst(s, sub).value;
      |after| + |sub| <= |s| && sub + after == s[|s| - |after| - |sub|..]
    decreases |s|
  {
    if sub <= s {
      assert s == sub + s[|sub|..];
    } else {
      AfterFirstFollowsMatch(s[1..], sub);
      var after := AfterFirst(s, sub).value;
      assert s[1..][|s| - 1 - |after| - |sub|..] == s[|s| - |after| - |sub|..];
    }
  }

  /** The character class `\w` of java.util.regex. */
  predicate IsWordChar(c: char) {
    ('a' <= c <= 'z') || ('A' <= c <= 'Z') || ('0' <= c <= '9') || c == '_'
  }

  /** Every character belongs to `[\w ]`. */
  predicate KeyValueChars(s: string) {
    forall i :: 0 <= i < |s| ==> IsWordChar(s[i]) || s[i] == ' '
  }

  /** Position of the first occurrence of `c`. */
  function IndexOf(s: string, c: char): (r: Option<nat>)
    ensures r.None? <==> c !in s
    ensures r.Some? ==> r.value < |s| && s[r.value] == c && c !in s[..r.value]
  {
    if |s| == 0 then None
    else if s[0] == c then Some(0)
    else match IndexOf(s[1..], c)
      case None => None
      case Some(i) =>
        assert s[1..][..i] == s[1..i + 1];
        Some(i + 1)
  }

  /** The first `c` of `a + [c] + b` is the one after `a` when `a` holds none. */
  lemma {:induction false} IndexOfAfterPrefix(a: string, b: string, c: char)
    requires c !in a
    ensures IndexOf(a + [c] + b, c) == Some(|a|)
  {
    if |a| > 0 {
      IndexOfAfterPrefix(a[1..], b, c);
      assert (a + [c] + b)[1..] == a[1..] + [c] + b;
    }
  }

  /**
   * Whole-string match of `[\w ]+=[\w ]*`, returning the key and the value.
   * The class excludes `=`, so the only `=` of a matching line separates them.
   */
  function MatchKeyValue(s: string): Option<(string, string)>
  {
    match IndexOf(s, '=')
    case None => None
    case Some(i) =>
      if 0 < i && KeyValueChars(s[..i]) && KeyValueChars(s[i + 1..]) then Some((s[..i], s[i + 1..]))
      else None
  }

  /** A matched line is its key, '=', and its value, both drawn from `[\w ]` and the key not empty. */
  lemma MatchKeyValueSound(s: string)
    requires MatchKeyValue(s).Some?
    ensures var (k, v) := MatchKeyValue(s).value;
      s == k + "=" + v && |k| > 0 && KeyValueChars(k) && KeyValueChars(v)
  {
    var i := IndexOf(s, '=').value;
    assert s == s[..i] + "=" + s[i + 1..];
  }

  /** Every line of the form the pattern describes is matched, with its own key and value. */
  lemma MatchKeyValueComplete(k: string, v: string)
    requires |k| > 0 && KeyValueChars(k) && KeyValueChars(v)
    ensures MatchKeyValue(k + "=" + v) == Some((k, v))
  {
    var s := k + "=" + v;
    assert s[|k|] == '=';
    assert s[..|k|] == k;
    assert s[|k| + 1..] == v;
  }

  /** `line.split("=")` on a matching header line yields the key, then the value unless it is empty. */
  lemma KeyValueSplit(s: string)
    requires MatchKeyValue(s).Some?
    ensures MatchKeyValue(s).value.1 == "" ==> JavaSplit(s, '=') == [MatchKeyValue(s).value.0]
    ensures MatchKeyValue(s).value.1 != "" ==> JavaSplit(s, '=') == [MatchKeyValue(s).value.0, MatchKeyValue(s).value.1]
  {
    var k := MatchKeyValue(s).value.0;
    var v := MatchKeyValue(s).value.1;
    MatchKeyValueSound(s);
    assert '=' !in k by {
      forall i | 0 <= i < |k| ensures k[i] != '=' {
        assert IsWordChar(k[i]) || k[i] == ' ';
      }
    }
    assert '=' !in v by {
      forall i | 0 <= i < |v| ensures v[i] != '=' {
        assert IsWordChar(v[i]) || v[i] == ' ';
      }
    }
    SplitAllNoSeparator(k, '=');
    SplitAllNoSeparator(v, '=');
    assert s == k + ['='] + v;
    SplitAllAtSeparator(k, v, '=');
    assert s[|k|] == '=';
    assert SplitAll(s, '=') == [k, v];
    assert '=' in s;
    if v == "" {
      assert [k, v][..1] == [k];
      assert DropTrailingEmpty([k]) == [k];
      assert DropTrailingEmpty([k, v]) == [k];
    } else {
      assert DropTrailingEmpty([k, v]) == [k, v];
    }
  }
}
